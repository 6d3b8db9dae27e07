/// Properties of the `tt` command that relate several of its parts.
module TtProperties {
  import opened Wrappers
  import opened Bits
  import opened Codec
  import opened Generators
  import opened TtCommand

  /// `0d<n>:<v>` loads the table of 2^n bits whose index j is bit j of v:
  /// the binary text the branch builds reads back as the bitset it came
  /// from.
  lemma DecimalLoadIsLowBits(n: nat, v: nat, env: Env)
    ensures var e := LoadEffect("0d" + DecimalString(n) + ":" + DecimalString(v), env);
      && e.Push?
      && |e.table| == Pow2(n)
      && (forall j :: 0 <= j < Pow2(n) ==> e.table[j] == Bit(v, j))
      && (v < Pow2(Pow2(n)) ==> ToNat(e.table) == v)
  {
    var t := FromNat(v, Pow2(n));
    DecimalTextFields(n, v, env);
    forall j | 0 <= j < Pow2(n) ensures t[j] == Bit(v, j) {
      FromNatBit(v, Pow2(n), j);
    }
    if v < Pow2(Pow2(n)) {
      ToNatFromNat(v, Pow2(n));
    }
  }

  /// The `0d` branch finds the separator after the width, casts both
  /// fields back to n and v, and reads its own binary text back.
  lemma DecimalTextFields(n: nat, v: nat, env: Env)
    ensures LoadEffect("0d" + DecimalString(n) + ":" + DecimalString(v), env) == Push(FromNat(v, Pow2(n)))
  {
    ParseDecimalString(n);
    ParseDecimalString(v);
    DecimalFieldsText(DecimalString(n), DecimalString(v), n, v, env);
  }

  /// The same for any two field texts that cast to n and v.
  lemma DecimalFieldsText(a: string, b: string, n: nat, v: nat, env: Env)
    requires ParseDecimal(a) == Some(n) && ParseDecimal(b) == Some(v)
    ensures LoadEffect("0d" + a + ":" + b, env) == Push(FromNat(v, Pow2(n)))
  {
    SeparatorAfterDigits(a, b);
    DecimalBranch("0d" + a + ":" + b, 2 + |a|, n, v, env);
  }

  /// A `0d` text whose separator is at `col` and whose fields cast to n and
  /// v pushes `dynamic_bitset(2^n, v)`.
  lemma DecimalBranch(text: string, col: nat, n: nat, v: nat, env: Env)
    requires HasPrefix(text, 'd') && !HasPrefix(text, 'x')
    requires Find(text, ':') == Some(col) && 2 <= col < |text|
    requires ParseDecimal(text[2..col]) == Some(n)
    requires ParseDecimal(text[col + 1..]) == Some(v)
    ensures LoadEffect(text, env) == Push(FromNat(v, Pow2(n)))
  {
    assert LoadEffect(text, env) == DecimalFieldsEffect(text, col);
  }

  lemma SeparatorAfterDigits(a: string, b: string)
    requires forall k :: 0 <= k < |a| ==> IsDigit(a[k])
    ensures var text := "0d" + a + ":" + b;
      && HasPrefix(text, 'd') && !HasPrefix(text, 'x')
      && Find(text, ':') == Some(2 + |a|)
      && text[2..2 + |a|] == a
      && text[2 + |a| + 1..] == b
  {
    var text := "0d" + a + ":" + b;
    assert ':' !in text[..2 + |a|] by {
      forall k | 0 <= k < 2 + |a| ensures text[k] != ':' {
        if k >= 2 {
          assert text[k] == a[k - 2];
        }
      }
    }
    assert text[2 + |a|] == ':';
  }

  /// `load("0d2:3")` gives the 4-entry table with value 3: indices 0 and 1
  /// set.
  lemma DecimalLoadExample(env: Env)
    ensures LoadEffect("0d2:3", env) == Push([true, true, false, false])
  {
    DecimalExampleText();
    DecimalTextFields(2, 3, env);
    DecimalExampleTable();
  }

  lemma DecimalExampleText()
    ensures "0d" + DecimalString(2) + ":" + DecimalString(3) == "0d2:3"
  {
    assert DecimalString(2) == "2" && DecimalString(3) == "3";
  }

  lemma DecimalExampleTable()
    ensures FromNat(3, Pow2(2)) == [true, true, false, false]
  {
    assert Pow2(2) == 4;
    assert FromNat(0, 2) == [false, false];
  }

  /// Binary text is read highest index first: "0110" sets indices 1 and 2.
  lemma BinaryLoadExample(env: Env)
    ensures LoadEffect("0110", env) == Push([false, true, true, false])
  {
    var e := LoadEffect("0110", env);
    assert e.table[0] == ("0110"[3] == '1');
  }

  /// The validity rules let `--hwb 0` through, the input on which the
  /// source's HWB loop reads out of range.
  lemma HwbZeroBitsPassesValidation(currentIndex: int)
    ensures Violations(Options(None, None, Some(0), None, None, None, None, None), currentIndex) == []
  {
  }

  /// PRIME over 4 bits: true on 2, 3, 5, 7, 11 and 13.
  lemma PrimeFourExample()
    ensures PrimeBits(4) == [false, false, true, true, false, true, false, true,
                             false, false, false, true, false, true, false, false]
  {
    assert Pow2(4) == 16;
    assert !IsPrime(4) && !IsPrime(6) && !IsPrime(8) && !IsPrime(10) && !IsPrime(12) && !IsPrime(14) by {
      assert 4 % 2 == 0 && 6 % 2 == 0 && 8 % 2 == 0 && 10 % 2 == 0 && 12 % 2 == 0 && 14 % 2 == 0;
    }
    assert !IsPrime(9) && !IsPrime(15) by {
      assert 9 % 3 == 0 && 15 % 3 == 0;
    }
    assert IsPrime(11) && IsPrime(13) by {
      forall d | 2 <= d < 13 ensures 11 % d != 0 || d >= 11 {
      }
      forall d | 2 <= d < 13 ensures 13 % d != 0 {
      }
    }
  }

  /// 3-input majority, assignments 0 to 7.
  lemma MajThreeExample()
    ensures MajTable(3) == [false, false, false, true, false, true, true, true]
  {
    assert Pow2(3) == 8;
    assert Weight(3) == 2 && Weight(5) == 2 && Weight(6) == 2 && Weight(7) == 3;
    assert Weight(1) == 1 && Weight(2) == 1 && Weight(4) == 1;
  }

  /// Complementing every input of an assignment below 2^k turns its
  /// popcount w into k - w.
  lemma {:induction false} WeightComplement(x: nat, k: nat)
    requires x < Pow2(k)
    ensures Weight(Pow2(k) - 1 - x) == k - Weight(x)
  {
    if k > 0 {
      var p, q, r := Pow2(k - 1), x / 2, x % 2;
      var c, d := Pow2(k) - 1 - x, p - 1 - q;
      assert Pow2(k) == 2 * p && x == 2 * q + r;
      assert c == 2 * d + (1 - r);
      WeightComplement(q, k - 1);
      WeightStep(x, q, r);
      WeightStep(c, d, 1 - r);
    }
  }

  /// Splitting off the lowest bit: 2q + r has popcount r + popcount(q).
  lemma WeightStep(v: nat, q: nat, r: nat)
    requires r < 2 && v == 2 * q + r
    ensures Weight(v) == r + Weight(q)
  {
    assert v % 2 == r && v / 2 == q;
  }

  /// For odd k the majority function is self-dual: complementing all inputs
  /// complements the output.
  lemma MajSelfDual(k: nat, x: nat)
    requires k % 2 == 1
    requires x < Pow2(k)
    ensures MajTable(k)[Pow2(k) - 1 - x] == !MajTable(k)[x]
  {
    WeightComplement(x, k);
  }

  /// The all-ones assignment of m bits has popcount m.
  lemma {:induction false} WeightAllOnes(m: nat)
    ensures Weight(Pow2(m) - 1) == m
  {
    if m > 0 {
      assert (Pow2(m) - 1) / 2 == Pow2(m - 1) - 1;
      WeightAllOnes(m - 1);
    }
  }

  /// For even k there is a tie: an assignment with exactly k / 2 inputs set
  /// is false and so is its complement, which is why MAJ asks for an odd
  /// width.
  lemma MajEvenWidthTies(k: nat)
    requires k % 2 == 0 && k >= 2
    ensures var x := Pow2(k / 2) - 1;
      x < Pow2(k) && !MajTable(k)[x] && !MajTable(k)[Pow2(k) - 1 - x]
  {
    var x := Pow2(k / 2) - 1;
    Pow2Monotone(k / 2, k);
    WeightAllOnes(k / 2);
    WeightComplement(x, k);
  }
}
