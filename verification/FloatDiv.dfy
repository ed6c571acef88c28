/** Division of floating point numbers (libbf.c __bf_div), for finite operands that are not zero. */
module FloatDiv {
  import opened Limbs
  import opened LimbArith
  import opened LimbDivFast
  import opened BitFields
  import opened FloatSpec
  import opened FloatRound
  import opened FloatValue
  import opened FloatCorrect

  function Max(a: nat, b: nat): nat {
    if a < b then b else a
  }

  /** The dividend: the mantissa of a above d zero limbs, in an array with one limb to spare. */
  method Widen(tab: seq<limb>, d: nat) returns (t: array<limb>)
    ensures fresh(t) && t.Length == d + |tab| + 1
    ensures Val(t[0..d + |tab|]) == Mul(Val(tab), Pow(d))
  {
    hide Val, Pow, Mul;
    t := new limb[d + |tab| + 1](i => 0);
    forall i | 0 <= i < |tab| {
      t[d + i] := tab[i];
    }
    assert t[0..d] == seq(d, i => 0) && t[0..d + |tab|] == t[0..d] + tab;
    ValConcat(t[0..d], tab);
    ValZeros(t[0..d]);
    MulSwap(Pow(d), Val(tab));
  }

  /** q is the quotient v of A by B with a sticky bit for the remainder. */
  ghost predicate StickyQuotient(q: nat, v: nat, A: nat, B: nat) {
    B > 0 && Mul(v, B) <= A < Mul(v + 1, B) && q == Sticky(v, A == Mul(v, B))
  }

  /** The quotient with its sticky bit, n + 1 limbs. */
  method DivMantissa(a: seq<limb>, b: seq<limb>, n: nat) returns (q: seq<limb>, ghost v: nat)
    requires |b| >= 1 && b[|b| - 1] >= HALF && n >= |a| >= 1 && a[|a| - 1] >= HALF
    ensures |q| == n + 1 && v >= P2(64 * n - 1)
    ensures Mul(Val(a), Pow(n + |b| - |a|)) >= 0 && StickyQuotient(Val(q), v, Mul(Val(a), Pow(n + |b| - |a|)), Val(b))
  {
    hide Val, Pow, Mul, P2, Sticky;
    var nb := |b|;
    var na := n + nb;
    var taba := Widen(a, na - |a|);
    ghost var A := Val(taba[0..na]);
    var tabb := new limb[nb](i requires 0 <= i < nb => b[i]);
    assert tabb[0..nb] == b;
    var tabq := new limb[n + 1](i => 0);
    MpDivNorm(tabq, 0, taba, 0, na, tabb, 0, nb);
    assert tabb[0..nb] == b;
    v := Val(tabq[0..n + 1]);
    ghost var rem := Val(taba[0..nb]);
    var nz := MpScanNz(taba, 0, nb);
    q := tabq[..];
    assert q == tabq[0..n + 1];
    q := SetSticky(q, nz);
    QuotientFacts(A, Val(b), v, rem);
    QuotientLarge(a, b, n, v, rem);
  }

  /** Sets the lowest bit if there is a rest. */
  method SetSticky(q: seq<limb>, nz: bool) returns (t: seq<limb>)
    requires |q| >= 1
    ensures |t| == |q| && Val(t) == Sticky(Val(q), !nz)
  {
    hide Val;
    t := q;
    LowestBit(q);
    if nz && q[0] % 2 == 0 {
      t := q[0 := q[0] + 1];
    }
  }

  lemma LowestBit(q: seq<limb>)
    requires |q| >= 1
    ensures Val(q) % 2 == q[0] % 2 && (q[0] % 2 == 0 ==> q[0] + 1 < BASE && Val(q[0 := q[0] + 1]) == Val(q) + 1)
  {
    hide Val;
    var h := q[1..];
    assert q == [q[0]] + h;
    ValCons(q[0], h);
    if q[0] % 2 == 0 {
      assert q[0 := q[0] + 1] == [q[0] + 1] + h;
      ValCons(q[0] + 1, h);
    }
  }

  lemma QuotientFacts(A: nat, B: nat, v: nat, rem: nat)
    requires Mul(v, B) + rem == A && rem < B
    ensures B > 0 && Mul(v, B) <= A < Mul(v + 1, B) && (A == Mul(v, B) <==> rem == 0)
  {
    MulDist(v, 1, B);
  }

  lemma QuotientLarge(a: seq<limb>, b: seq<limb>, n: nat, v: nat, rem: nat)
    requires n >= |a| >= 1 && a[|a| - 1] >= HALF && rem < Val(b)
             && Mul(v, Val(b)) + rem == Mul(Val(a), Pow(n + |b| - |a|))
    ensures v >= P2(64 * n - 1)
  {
    hide Val, Pow, P2;
    TopLength(a);
    ValBound(b);
    var d := n + |b| - |a|;
    P2Pow(d);
    P2Pow(|b|);
    P2Add(64 * |a| - 1, 64 * d);
    P2Add(64 * n - 1, 64 * |b|);
    LargeNumbers(Val(a), P2(64 * |a| - 1), Pow(d), v, Val(b), rem, P2(64 * n - 1), Pow(|b|));
  }

  lemma LargeNumbers(a: nat, l: nat, d: nat, v: nat, b: nat, rem: nat, t: nat, p: nat)
    requires a >= l && rem < b < p && Mul(v, b) + rem == Mul(a, d) && l * d == t * p
    ensures v >= t
  {
    MulMono(l, a, d);
    if v < t {
      MulMono(v + 1, t, p);
      MulDist(v, 1, b);
      MulMono(b, p, v + 1);
      MulSwap(b, v + 1);
      MulSwap(p, v + 1);
    }
  }

  // The real quotient.

  lemma FloorOfQuotient(x: real, q: nat, v: nat, A: nat, B: nat)
    requires StickyQuotient(q, v, A, B) && x * (B as real) == A as real
    ensures HasFloor(x, v, A == Mul(v, B))
  {
    RealMul(v, B);
    RealMul(v + 1, B);
    hide Mul;
    FloorNumbers(x, v, B as real, A, Mul(v, B), Mul(v + 1, B));
  }

  lemma FloorNumbers(x: real, v: int, b: real, A: int, low: int, high: int)
    requires b > 0.0 && x * b == A as real && low <= A < high
    requires low as real == (v as real) * b && high as real == ((v + 1) as real) * b
    ensures v as real <= x < (v + 1) as real && (x == v as real <==> A == low)
  {
    RealOrder(x, v as real, b);
    RealOrder(x, (v + 1) as real, b);
  }

  /** y is the magnitude of the first number divided by that of the second. */
  ghost predicate IsQuotient(y: real, a: nat, ua: int, b: nat, ub: int) {
    y * Magnitude(b, ub) == Magnitude(a, ua)
  }

  /** From the values of the operands to the mantissas. */
  lemma QuotientScaled(y: real, A: nat, ua: int, B: nat, ub: int, d: nat, e: int) returns (x: real)
    requires IsQuotient(y, A, ua, B, ub) && B > 0 && e == ua - ub - 64 * d
    ensures y == x * Scale(e) && x * (B as real) == Mul(A, Pow(d)) as real
  {
    hide Scale, P2, Pow;
    P2Pow(d);
    ScaleAdd(e, -e);
    ScaleAdd(e, ub);
    ScaleAdd(e + ub, 64 * d);
    PowerScale(d);
    x := y * Scale(-e);
    assert Scale(e) * Scale(-e) == 1.0 by { UnitScale(e); }
    RealMul(A, Pow(d));
    ScaledNumbers(x, y, A as real, B as real, Scale(e), Scale(-e), Scale(ub), Scale(64 * d), Scale(ua));
  }

  lemma ScaledNumbers(x: real, y: real, a: real, b: real, e: real, e': real, ub: real, d: real, ua: real)
    requires x == y * e' && e * e' == 1.0 && y * (b * ub) == a * ua && ua == (e * ub) * d && e > 0.0 && ub > 0.0
    ensures y == x * e && x * b == a * d
  {
    assert x * e == y * (e * e');
    assert (x * b) * (e * ub) == (x * e) * (b * ub);
    assert (a * d) * (e * ub) == a * ((e * ub) * d);
    assert e * ub > 0.0;
    CancelReal(x * b, a * d, e * ub);
  }

  lemma DivCorrect(y: real, a: nat, ua: int, b: nat, ub: int, d: nat, q: nat, v: nat, n: nat, e: int, prec: nat,
                   neg: bool, mode: Mode, n': nat, e': int, inexact: bool)
    requires IsQuotient(y, a, ua, b, ub) && Mul(a, Pow(d)) >= 0 && StickyQuotient(q, v, Mul(a, Pow(d)), b)
    requires e == ua - ub - 64 * d && n >= 1 && v >= P2(64 * n - 1) && 64 * n >= prec + 2 && prec >= 1
    requires Rounded(q, e, prec, neg, mode, n', e', inexact)
    ensures RoundedReal(y, prec, neg, mode, n', e', inexact)
  {
    hide Scale, Pow, P2, Rounded, RoundedReal, Mul, IsQuotient;
    var x := QuotientScaled(y, a, ua, b, ub, d, e);
    FloorOfQuotient(x, q, v, Mul(a, Pow(d)), b);
    LengthAtLeast(v, 64 * n);
    StickyCorrect(y, x, v, Mul(a, Pow(d)) == Mul(v, b), e, prec, neg, mode, n', e', inexact);
  }

  /** r is the real quotient rounded once. */
  ghost predicate QuotientRounded(r: Bf, a: nat, ua: int, b: nat, ub: int, inexact: bool, prec: nat, mode: Mode)
    reads r
  {
    forall y: real | IsQuotient(y, a, ua, b, ub) :: RoundedReal(y, prec, r.sign, mode, Val(r.tab), r.Unit(), inexact)
  }

  /** __bf_div: the real quotient rounded once. */
  method BfDiv(r: Bf, a: Bf, b: Bf, prec: nat, mode: Mode) returns (inexact: bool)
    requires r != a && r != b && a.Normal() && b.Normal() && prec >= 1
    requires a.expn - b.expn - 64 * Max(|a.tab|, (prec + 2 + 63) / 64) > EXP_ZERO + 64
    modifies r
    ensures r.Normal() && r.sign == (a.sign != b.sign)
    ensures QuotientRounded(r, Val(a.tab), a.Unit(), Val(b.tab), b.Unit(), inexact, prec, mode)
  {
    hide Val, Pow, P2, Mul, Rounded, IsQuotient, RoundedReal, StickyQuotient;
    var precl := (prec + 2 + 63) / 64;
    var nb := |b.tab|;
    var n := Max(|a.tab|, precl);
    ghost var d, ua, ub := n + nb - |a.tab|, a.Unit(), b.Unit();
    var q;
    ghost var v;
    q, v := DivMantissa(a.tab, b.tab, n);
    r.tab := q;
    r.expn := a.expn - b.expn + 64;
    r.sign := a.sign != b.sign;
    ghost var e := r.Unit();
    StickyPositive(Val(q), v, Mul(Val(a.tab), Pow(d)), Val(b.tab), n);
    inexact := BfNormalizeAndRound(r, prec, mode);
    forall y: real | IsQuotient(y, Val(a.tab), a.Unit(), Val(b.tab), b.Unit())
      ensures RoundedReal(y, prec, r.sign, mode, Val(r.tab), r.Unit(), inexact)
    {
      DivCorrect(y, Val(a.tab), ua, Val(b.tab), ub, d, Val(q), v, n, e, prec, r.sign, mode, Val(r.tab), r.Unit(),
                 inexact);
    }
  }

  lemma StickyPositive(q: nat, v: nat, A: nat, B: nat, n: nat)
    requires StickyQuotient(q, v, A, B) && n >= 1 && v >= P2(64 * n - 1)
    ensures q > 0
  {}
}
