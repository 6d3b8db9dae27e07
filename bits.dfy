/// The bit-vector core behind a truth table: a boost `dynamic_bitset` is a
/// sequence of booleans whose index i holds bit i (bit 0 is the least
/// significant one).  `ToNat` and `FromNat` relate such a sequence to the
/// unsigned number it stands for; `Inc` is the wrap-around successor the
/// generators use to enumerate input assignments.
module Bits {

  type Bits = seq<bool>

  function Pow2(n: nat): (r: nat)
    ensures r >= 1
  {
    if n == 0 then 1 else 2 * Pow2(n - 1)
  }

  /// Bit j of the number v, that is `(v >> j) & 1`.
  function Bit(v: nat, j: nat): bool
  {
    if j == 0 then v % 2 == 1 else Bit(v / 2, j - 1)
  }

  /// Number of one bits in the binary form of v (popcount).
  function Weight(v: nat): nat
  {
    if v == 0 then 0 else v % 2 + Weight(v / 2)
  }

  /// The unsigned value of a bitset (`to_ulong`), bit 0 least significant.
  function ToNat(b: Bits): (r: nat)
    ensures r < Pow2(|b|)
  {
    if b == [] then 0 else (if b[0] then 1 else 0) + 2 * ToNat(b[1..])
  }

  /// The bitset `dynamic_bitset(n, v)`: n bits holding the low n bits of v.
  function FromNat(v: nat, n: nat): (r: Bits)
    ensures |r| == n
  {
    if n == 0 then [] else [v % 2 == 1] + FromNat(v / 2, n - 1)
  }

  /// Number of set bits (`count`).
  function Count(b: Bits): (r: nat)
    ensures r <= |b|
    ensures r == 0 <==> !Any(b)
  {
    if b == [] then 0 else (if b[0] then 1 else 0) + Count(b[1..])
  }

  /// At least one bit is set (`any`).
  function Any(b: Bits): (r: bool)
    ensures r <==> exists i :: 0 <= i < |b| && b[i]
  {
    b != [] && (b[0] || Any(b[1..]))
  }

  /// Binary successor with wrap-around to the all-zero pattern (`inc`).
  function Inc(b: Bits): (r: Bits)
    ensures |r| == |b|
    ensures ToNat(r) == if ToNat(b) + 1 == Pow2(|b|) then 0 else ToNat(b) + 1
  {
    if b == [] then []
    else if !b[0] then [true] + b[1..]
    else [false] + Inc(b[1..])
  }

  /// Reading a bitset back as a number gives the number it was built from.
  lemma {:induction false} ToNatFromNat(v: nat, n: nat)
    requires v < Pow2(n)
    ensures ToNat(FromNat(v, n)) == v
  {
    if n > 0 {
      ToNatFromNat(v / 2, n - 1);
      assert FromNat(v, n)[1..] == FromNat(v / 2, n - 1);
    }
  }

  /// Every bitset is the bitset of its own value.
  lemma {:induction false} FromNatToNat(b: Bits)
    ensures FromNat(ToNat(b), |b|) == b
  {
    if b != [] {
      FromNatToNat(b[1..]);
      var v := ToNat(b);
      assert v / 2 == ToNat(b[1..]);
      assert (v % 2 == 1) == b[0];
    }
  }

  /// Index j of `dynamic_bitset(n, v)` is bit j of v.
  lemma {:induction false} FromNatBit(v: nat, n: nat, j: nat)
    requires j < n
    ensures FromNat(v, n)[j] == Bit(v, j)
  {
    if j > 0 {
      FromNatBit(v / 2, n - 1, j - 1);
    }
  }

  /// The number of set bits of a bitset is the popcount of its value.
  lemma {:induction false} CountIsWeight(b: Bits)
    ensures Count(b) == Weight(ToNat(b))
  {
    if b != [] {
      CountIsWeight(b[1..]);
      var v := ToNat(b);
      assert v / 2 == ToNat(b[1..]);
    }
  }

  /// A bitset has a set bit exactly when its value is not zero.
  lemma {:induction false} AnyIffNonZero(b: Bits)
    ensures Any(b) <==> ToNat(b) != 0
  {
    if b != [] {
      AnyIffNonZero(b[1..]);
    }
  }

  /// Stepping the counter for assignment x gives the counter for x + 1,
  /// or the all-zero counter once x was the largest assignment.
  lemma IncFromNat(x: nat, n: nat)
    requires x < Pow2(n)
    ensures Inc(FromNat(x, n)) == FromNat(if x + 1 == Pow2(n) then 0 else x + 1, n)
  {
    var b := FromNat(x, n);
    ToNatFromNat(x, n);
    FromNatToNat(Inc(b));
  }

  /// Index j of a bitset is bit j of its value.
  lemma ToNatBit(b: Bits, j: nat)
    requires j < |b|
    ensures b[j] == Bit(ToNat(b), j)
  {
    FromNatToNat(b);
    FromNatBit(ToNat(b), |b|, j);
  }
}
