/** Two numbers aligned at their exponents: their limbs as bf_add_internal reads them. */
module FloatAlign {
  import opened Limbs
  import opened LimbArith
  import opened Bits
  import opened BitFields
  import opened NttLoad
  import opened NttStore
  import opened FloatRound

  function LimbZ(tab: seq<limb>, i: int): limb {
    if 0 <= i < |tab| then tab[i] else 0
  }

  /** get_bits at a position that may lie outside the number on either side. */
  method GetBitsZ(tab: seq<limb>, pos: int) returns (r: limb)
    ensures r == TwoLimbs(LimbZ(tab, pos / 64), LimbZ(tab, pos / 64 + 1), pos % 64)
  {
    hide BitOr, ShiftRight, ShiftLeft;
    var i, p := pos / 64, pos % 64;
    var a0 := LimbZ(tab, i);
    if p == 0 {
      return a0;
    }
    var a1 := LimbZ(tab, i + 1);
    OrFits(a0, a1, p);
    return BitOr(ShiftRight(a0, p), ShiftLeft(a1, 64 - p));
  }

  /** n zero limbs below the number. */
  ghost function Padded(tab: seq<limb>, n: nat): (s: seq<limb>)
    ensures |s| == n + |tab|
  {
    Zeros(n) + tab
  }

  lemma PaddedAt(tab: seq<limb>, n: nat, j: nat)
    ensures LimbAt(Padded(tab, n), j) == LimbZ(tab, j - n)
  {
    ZeroLimbs(n);
  }

  lemma ZeroLimbs(n: nat)
    ensures forall i :: 0 <= i < n ==> Zeros(n)[i] == 0
  {
    ValZeros(Zeros(n));
  }

  lemma PaddedValue(tab: seq<limb>, n: nat)
    ensures Val(Padded(tab, n)) == Mul(Val(tab), Pow(n))
  {
    hide Val, Pow;
    ValConcat(Zeros(n), tab);
    MulSwap(Pow(n), Val(tab));
  }

  /** The sizes of an aligned pair: tot limbs hold both numbers, b shifted down by d bits. */
  ghost predicate Aligned(la: nat, lb: nat, d: nat, tot: nat) {
    la <= tot && lb <= tot && 64 * lb + d <= 64 * tot
  }

  /** The larger number in tot limbs. */
  ghost function First(a: seq<limb>, tot: nat): nat
    requires |a| <= tot
  {
    Val(Padded(a, tot - |a|))
  }

  /** The smaller number, shifted down by d bits. */
  ghost function Second(b: seq<limb>, d: nat, tot: nat): nat
    requires |b| <= tot
  {
    QuotientNatural(Val(Padded(b, tot - |b|)), P2(d));
    Val(Padded(b, tot - |b|)) / P2(d)
  }

  /** Nothing is lost by the shift. */
  lemma SecondValue(b: seq<limb>, d: nat, tot: nat)
    requires |b| <= tot && 64 * |b| + d <= 64 * tot
    ensures Second(b, d, tot) == Mul(Val(b), P2(64 * (tot - |b|) - d))
    ensures Mul(Second(b, d, tot), P2(d)) == Mul(Val(b), Pow(tot - |b|))
  {
    hide Val, Pow, P2;
    var z := tot - |b|;
    PaddedValue(b, z);
    P2Pow(z);
    P2Add(64 * z - d, d);
    MulAssoc(Val(b), P2(64 * z - d), P2(d));
    DivModUnique(Mul(Val(b), Pow(z)), P2(d), Mul(Val(b), P2(64 * z - d)), 0);
  }

  lemma LimbOfVal(s: seq<limb>, j: nat)
    ensures LimbOf(Val(s), j) == LimbAt(s, j)
  {
    hide Val, Pow;
    LimbOfShifted(s, 0, j);
    P2Nothing(Val(s));
  }

  lemma P2Nothing(n: nat)
    ensures n / P2(0) == n
  {
    assert P2(0) == 1;
    DivModUnique(n, 1, n, 0);
  }

  /** Limb j of the larger number. */
  lemma FirstLimb(a: seq<limb>, tot: nat, j: nat)
    requires |a| <= tot
    ensures LimbZ(a, |a| - tot + j) == LimbOf(First(a, tot), j)
  {
    hide LimbOf, Val;
    PaddedAt(a, tot - |a|, j);
    LimbOfVal(Padded(a, tot - |a|), j);
  }

  /** Limb j of the smaller number is what get_bits reads. */
  lemma SecondLimb(b: seq<limb>, d: nat, tot: nat, j: nat)
    requires |b| <= tot
    ensures
      var pos := 64 * (|b| - tot + j) + d;
      LimbOf(Second(b, d, tot), j) == TwoLimbs(LimbZ(b, pos / 64), LimbZ(b, pos / 64 + 1), pos % 64)
  {
    hide LimbOf, Val, P2, TwoLimbs;
    var z := tot - |b|;
    var pos := 64 * (|b| - tot + j) + d;
    LimbOfShifted(Padded(b, z), d, j);
    PaddedAt(b, z, d / 64 + j);
    PaddedAt(b, z, d / 64 + j + 1);
    assert pos / 64 == d / 64 + j - z && pos % 64 == d % 64;
  }

  /** The limbs of a number below BASE^n. */
  ghost function LimbsBelow(w: nat, n: nat): (s: seq<limb>)
    ensures |s| == n
  {
    seq(n, j requires 0 <= j < n => LimbRange(w, j); LimbOf(w, j))
  }

  lemma LimbRange(w: nat, j: nat)
    ensures 0 <= LimbOf(w, j) < BASE
  {}

  lemma LimbsBelowValue(w: nat, n: nat)
    requires w < Pow(n)
    ensures Val(LimbsBelow(w, n)) == w
  {
    hide Val, Pow, LimbOf;
    LimbsOf(LimbsBelow(w, n), w);
  }

  /** The leading parts of both numbers. */
  lemma FirstRange(a: seq<limb>, tot: nat)
    requires 1 <= |a| <= tot && a[|a| - 1] >= HALF
    ensures P2(64 * tot - 1) <= First(a, tot) < Pow(tot)
  {
    hide Val, Pow, P2;
    var s := Padded(a, tot - |a|);
    assert s[tot - 1] == a[|a| - 1];
    TopLength(s);
    ValBound(s);
  }

  lemma SecondRange(b: seq<limb>, d: nat, tot: nat)
    requires |b| <= tot && d <= 64 * tot
    ensures Second(b, d, tot) < P2(64 * tot - d) && Second(b, d, tot) < Pow(tot)
  {
    hide Val, Pow;
    var s := Padded(b, tot - |b|);
    ValBound(s);
    P2Pow(tot);
    P2Add(64 * tot - d, d);
    P2Monotone(64 * tot - d, 64 * tot);
    hide P2;
    QuotientBelowPower(Val(s), P2(d), P2(64 * tot - d));
  }

  lemma QuotientBelowPower(n: nat, d: nat, q: nat)
    requires d >= 1 && n < q * d
    ensures n / d < q
  {
    var k := n / d;
    assert n == k * d + n % d;
    if k >= q {
      MulMono(q, k, d);
    }
  }
}
