module Wrappers {

  datatype Option<T> = None | Some(value: T)
}

/// The textual forms a truth table is read from and written to.  A binary
/// string is in boost `dynamic_bitset` order: its FIRST character is the
/// HIGHEST index, so character k of a string of length L stands for index
/// L - 1 - k.
module Codec {
  import opened Wrappers
  import opened Bits

  /// `to_string(b)`: the bits from the highest index down to index 0.
  function ToBinaryString(b: Bits): (s: string)
    ensures |s| == |b|
    ensures forall k :: 0 <= k < |s| ==> s[k] == (if b[|b| - 1 - k] then '1' else '0')
  {
    if b == [] then "" else ToBinaryString(b[1..]) + [if b[0] then '1' else '0']
  }

  /// `dynamic_bitset(s)`: index i is the character |s| - 1 - i.  The
  /// constructor only asserts (in debug builds) that every character is a
  /// '0' or a '1'; in a release build every character other than '1'
  /// reads as a 0, as here.
  function ParseBinary(s: string): (b: Bits)
    ensures |b| == |s|
    ensures forall i :: 0 <= i < |b| ==> b[i] == (s[|s| - 1 - i] == '1')
  {
    if s == "" then [] else [s[|s| - 1] == '1'] + ParseBinary(s[..|s| - 1])
  }

  predicate IsBinaryText(s: string)
  {
    forall k :: 0 <= k < |s| ==> s[k] == '0' || s[k] == '1'
  }

  /// Printing a table and reading it back gives the same table.
  lemma ParseToBinaryString(b: Bits)
    ensures IsBinaryText(ToBinaryString(b))
    ensures ParseBinary(ToBinaryString(b)) == b
  {
    var s := ToBinaryString(b);
    var r := ParseBinary(s);
    forall i | 0 <= i < |b| ensures r[i] == b[i] {
      assert s[|s| - 1 - i] == (if b[i] then '1' else '0');
    }
  }

  /// Reading binary text and printing it again gives the same text.
  lemma ToBinaryStringParse(s: string)
    requires IsBinaryText(s)
    ensures ToBinaryString(ParseBinary(s)) == s
  {
    var b := ParseBinary(s);
    var t := ToBinaryString(b);
    forall k | 0 <= k < |s| ensures t[k] == s[k] {
      assert b[|b| - 1 - k] == (s[k] == '1');
    }
  }

  predicate IsDigit(c: char)
  {
    '0' <= c <= '9'
  }

  function DigitValue(c: char): nat
    requires IsDigit(c)
  {
    (c as int - '0' as int) as nat
  }

  function DigitChar(d: nat): (c: char)
    requires d < 10
    ensures IsDigit(c) && DigitValue(c) == d
  {
    ('0' as int + d) as char
  }

  /// `lexical_cast<unsigned>(s)` on the texts this model accepts: a
  /// non-empty string of decimal digits; anything else makes the cast
  /// throw, which is `None` here.
  function ParseDecimal(s: string): (r: Option<nat>)
    ensures r.Some? <==> s != "" && forall k :: 0 <= k < |s| ==> IsDigit(s[k])
  {
    if s == "" then None
    else if !IsDigit(s[|s| - 1]) then None
    else if |s| == 1 then Some(DigitValue(s[0]))
    else match ParseDecimal(s[..|s| - 1])
      case None => None
      case Some(v) => Some(10 * v + DigitValue(s[|s| - 1]))
  }

  /// The decimal text of n, most significant digit first.
  function DecimalString(n: nat): (s: string)
    ensures s != "" && forall k :: 0 <= k < |s| ==> IsDigit(s[k])
  {
    if n < 10 then [DigitChar(n)] else DecimalString(n / 10) + [DigitChar(n % 10)]
  }

  /// Reading the decimal text of a number gives the number back.
  lemma {:induction false} ParseDecimalString(n: nat)
    ensures ParseDecimal(DecimalString(n)) == Some(n)
  {
    if n >= 10 {
      ParseDecimalString(n / 10);
      var s := DecimalString(n);
      assert s[..|s| - 1] == DecimalString(n / 10);
    }
  }

  /// `s.find(c)`: the first position holding c, or `None` for `npos`.
  function Find(s: string, c: char): (r: Option<nat>)
    ensures r.None? <==> c !in s
    ensures r.Some? ==> r.value < |s| && s[r.value] == c && c !in s[..r.value]
  {
    if s == "" then None
    else if s[0] == c then Some(0)
    else match Find(s[1..], c)
      case None => None
      case Some(i) => Some(i + 1)
  }
}
