/// The three benchmark functions of the truth-table command.  Each one fills
/// a table of 2^k bits, all false at first, by enumerating input
/// assignments: HWB and MAJ step a k-bit counter with `Inc` until it wraps
/// back to zero, PRIME walks an ascending table of primes.
module Generators {
  import opened Bits

  /// Hidden weighted bit: for an assignment x with c set bits, bit c - 1 of
  /// x; false for the all-zero assignment.
  predicate HwbBit(x: nat)
  {
    Weight(x) > 0 && Bit(x, Weight(x) - 1)
  }

  /// Majority over k inputs: strictly more than k / 2 inputs are set.
  predicate MajBit(x: nat, k: nat)
  {
    Weight(x) > k / 2
  }

  function HwbTable(k: nat): Bits
  {
    seq(Pow2(k), x requires 0 <= x => HwbBit(x))
  }

  function MajTable(k: nat): Bits
  {
    seq(Pow2(k), x requires 0 <= x => MajBit(x, k))
  }

  /// The table the PRIME branch stores: true exactly on the primes below 2^k.
  function PrimeBits(k: nat): Bits
  {
    seq(Pow2(k), y requires 0 <= y => IsPrime(y))
  }

  /// The index the loop body of the source reads from the counter, written
  /// as the source computes it: `it.count() - 1u` in `size_t` arithmetic,
  /// which wraps to 2^64 - 1 when no bit is set.
  function HwbReadIndexAsWritten(it: Bits): nat
  {
    if Count(it) >= 1 then Count(it) - 1 else 0x1_0000_0000_0000_0000 - 1
  }

  /// With zero bits the counter `dynamic_bitset(0, 1)` is empty, so the
  /// first pass of the do-while loop reads a bit far beyond its end.
  lemma HwbZeroBitsReadsOutOfRange()
    ensures var it := FromNat(1, 0); |it| == 0 && HwbReadIndexAsWritten(it) == 0x1_0000_0000_0000_0000 - 1
  {
  }

  /// With at least one bit, every counter the loop visits has a set bit and
  /// the read stays in range: zero bits is the only failing input.
  lemma HwbReadIndexInRange(x: nat, k: nat)
    requires 1 <= x < Pow2(k)
    ensures HwbReadIndexAsWritten(FromNat(x, k)) < k
  {
    ToNatFromNat(x, k);
    AnyIffNonZero(FromNat(x, k));
  }

  /// What the loop body reads from a counter with a set bit: the bit at
  /// `count() - 1` is the HWB output of the counter's value.
  lemma HwbRead(it: Bits)
    requires ToNat(it) != 0
    ensures 1 <= Count(it) <= |it|
    ensures it[Count(it) - 1] == HwbBit(ToNat(it))
  {
    CountIsWeight(it);
    AnyIffNonZero(it);
    ToNatBit(it, Count(it) - 1);
  }

  /// HWB for k bits.  The source enters its do-while loop unconditionally;
  /// here the loop is skipped when k is 0 (see `HwbZeroBitsReadsOutOfRange`),
  /// which leaves the one-entry table false, as HWB demands of assignment 0.
  method GenerateHwb(k: nat) returns (t: Bits)
    ensures |t| == Pow2(k)
    ensures forall x :: 0 <= x < Pow2(k) ==> t[x] == HwbBit(x)
    ensures !t[0]
  {
    var h := new bool[Pow2(k)](_ => false);
    var it := FromNat(1, k);
    if k > 0 {
      ToNatFromNat(1, k);
      while true
        invariant |it| == k && 1 <= ToNat(it) < Pow2(k)
        invariant forall y :: 0 <= y < h.Length ==> h[y] == (1 <= y < ToNat(it) && HwbBit(y))
        decreases Pow2(k) - ToNat(it)
      {
        HwbRead(it);
        h[ToNat(it)] := it[Count(it) - 1];
        ghost var x := ToNat(it);
        it := Inc(it);
        AnyIffNonZero(it);
        if !Any(it) {
          assert x + 1 == Pow2(k);
          break;
        }
      }
    }
    t := h[..];
  }

  /// MAJ for k bits: assignment 0 is visited first and the loop ends when
  /// the counter wraps back to 0.
  method GenerateMaj(k: nat) returns (t: Bits)
    ensures |t| == Pow2(k)
    ensures forall x :: 0 <= x < Pow2(k) ==> t[x] == MajBit(x, k)
  {
    var m := new bool[Pow2(k)](_ => false);
    var it := FromNat(0, k);
    ToNatFromNat(0, k);
    while true
      invariant |it| == k && ToNat(it) < Pow2(k)
      invariant forall y :: 0 <= y < ToNat(it) ==> m[y] == MajBit(y, k)
      decreases Pow2(k) - ToNat(it)
    {
      CountIsWeight(it);
      m[ToNat(it)] := Count(it) > k / 2;
      ghost var x := ToNat(it);
      it := Inc(it);
      AnyIffNonZero(it);
      if !Any(it) {
        assert x + 1 == Pow2(k);
        break;
      }
    }
    t := m[..];
  }

  /// A table that agrees with HWB at every assignment is the HWB table.
  lemma HwbTableEquals(t: Bits, k: nat)
    requires |t| == Pow2(k)
    requires forall x :: 0 <= x < Pow2(k) ==> t[x] == HwbBit(x)
    ensures t == HwbTable(k)
  {
  }

  /// A table that agrees with MAJ at every assignment is the MAJ table.
  lemma MajTableEquals(t: Bits, k: nat)
    requires |t| == Pow2(k)
    requires forall x :: 0 <= x < Pow2(k) ==> t[x] == MajBit(x, k)
    ensures t == MajTable(k)
  {
  }

  predicate Ascending(s: seq<nat>)
  {
    forall i, j :: 0 <= i < j < |s| ==> s[i] < s[j]
  }

  /// PRIME for k bits over an ascending table of primes: the scan sets
  /// every entry below 2^k and stops at the first entry that is not, so the
  /// table must hold such an entry.
  method GeneratePrime(k: nat, primes: seq<nat>) returns (t: Bits)
    requires Ascending(primes)
    requires exists i :: 0 <= i < |primes| && primes[i] >= Pow2(k)
    ensures |t| == Pow2(k)
    ensures forall y :: 0 <= y < Pow2(k) ==> t[y] == (y in primes)
  {
    var p := new bool[Pow2(k)](_ => false);
    var pt := 0;
    var max := p.Length;
    ghost var stop :| 0 <= stop < |primes| && primes[stop] >= max;
    while primes[pt] < max
      invariant 0 <= pt <= stop
      invariant forall j :: 0 <= j < pt ==> primes[j] < max
      invariant forall y :: 0 <= y < max ==> p[y] == (y in primes[..pt])
      decreases stop - pt
    {
      p[primes[pt]] := true;
      pt := pt + 1;
    }
    t := p[..];
  }

  predicate IsPrime(n: nat)
  {
    n >= 2 && forall d :: 2 <= d < n ==> n % d != 0
  }

  /// The primes in [lo, hi), ascending.
  function PrimesIn(lo: nat, hi: nat): (s: seq<nat>)
    ensures Ascending(s)
    ensures forall i :: 0 <= i < |s| ==> lo <= s[i] < hi
    ensures forall n :: n in s <==> lo <= n < hi && IsPrime(n)
    decreases hi - lo
  {
    if lo >= hi then []
    else if IsPrime(lo) then [lo] + PrimesIn(lo + 1, hi)
    else PrimesIn(lo + 1, hi)
  }

  /// The source's `primes` table as far as a scan for at most 10 bits reads
  /// it: every prime below 2^10, then 1031, the first prime above it, which
  /// ends the scan.
  const PrimeTable: seq<nat> := PrimesIn(0, 1024) + [1031]

  lemma Pow2Monotone(a: nat, b: nat)
    requires a <= b
    ensures Pow2(a) <= Pow2(b)
  {
  }

  /// For up to 10 bits the table meets what the scan needs, and the table
  /// below 2^k holds exactly the primes below 2^k.
  lemma PrimeTableFits(k: nat)
    requires k <= 10
    ensures Ascending(PrimeTable)
    ensures PrimeTable[|PrimeTable| - 1] >= Pow2(k)
    ensures forall y :: 0 <= y < Pow2(k) ==> (y in PrimeTable <==> IsPrime(y))
  {
    Pow2Monotone(k, 10);
    assert Pow2(10) == 1024;
    var low := PrimesIn(0, 1024);
    forall i, j | 0 <= i < j < |PrimeTable| ensures PrimeTable[i] < PrimeTable[j] {
      if j < |low| {
        assert PrimeTable[i] == low[i] && PrimeTable[j] == low[j];
      } else {
        assert PrimeTable[i] == low[i];
      }
    }
  }

  /// What the PRIME scan over the primes table leaves is `PrimeBits(k)`.
  lemma PrimeBitsEquals(t: Bits, k: nat)
    requires k <= 10
    requires |t| == Pow2(k)
    requires forall y :: 0 <= y < Pow2(k) ==> t[y] == (y in PrimeTable)
    ensures t == PrimeBits(k)
  {
    PrimeTableFits(k);
  }
}
