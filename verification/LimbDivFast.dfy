/** Division of limb arrays: the dispatcher mp_divnorm, Newton's reciprocal mp_recip and the
    subquadratic mp_divnorm_large (libbf.c). The three call each other. */
module LimbDivFast {
  import opened Limbs
  import opened LimbArith
  import opened LimbDiv
  import opened LimbDivLong
  import opened LimbMul
  import opened Reciprocal

  const DIVNORM_LARGE_THRESHOLD := 50

  predicate UseLarge(na: nat, nb: nat) {
    nb != 1 && na >= nb && (if na - nb < nb then na - nb else nb) >= DIVNORM_LARGE_THRESHOLD
  }

  method Clear(tab: array<limb>, o: nat, n: nat)
    requires o + n <= tab.Length
    modifies tab
    ensures Val(tab[o..o + n]) == 0
    ensures Untouched(tab, o, o + n)
  {
    hide Mul, Val, Pow;
    var i := 0;
    while i < n
      invariant 0 <= i <= n
      invariant forall j :: o <= j < o + i ==> tab[j] == 0
      invariant Untouched(tab, o, o + i)
    {
      tab[o + i] := 0;
      i := i + 1;
    }
    ValZeros(tab[o..o + n]);
  }

  method Copy(dst: array<limb>, d: nat, src: array<limb>, s: nat, n: nat)
    requires d + n <= dst.Length && s + n <= src.Length && dst != src
    modifies dst
    ensures dst[d..d + n] == src[s..s + n]
    ensures Untouched(dst, d, d + n)
  {
    var i := 0;
    while i < n
      invariant 0 <= i <= n
      invariant forall j :: d <= j < d + i ==> dst[j] == src[j - d + s]
      invariant Untouched(dst, d, d + i)
    {
      dst[d + i] := src[s + i];
      i := i + 1;
    }
  }

  /** libbf.c mp_divnorm. */
  method MpDivNorm(q: array<limb>, qo: nat, a: array<limb>, ao: nat, na: nat, b: array<limb>, bo: nat, nb: nat)
    requires nb >= 1 && na >= nb
    requires qo + (na - nb) + 1 <= q.Length && ao + na <= a.Length && bo + nb <= b.Length
    requires q != a && q != b && a != b
    requires b[bo + nb - 1] >= HALF
    modifies q, a
    ensures Mul(Val(q[qo..qo + (na - nb) + 1]), Val(b[bo..bo + nb])) + Val(a[ao..ao + nb]) == old(Val(a[ao..ao + na]))
    ensures Val(a[ao..ao + nb]) < Val(b[bo..bo + nb])
    ensures q[qo + (na - nb)] <= 1
    ensures Untouched(q, qo, qo + (na - nb) + 1) && Untouched(a, ao, ao + na)
    decreases if UseLarge(na, nb) then 3 else 0, 0
  {
    hide Mul, Val, Pow;
    ghost var A := a[ao..ao + na];
    if nb == 1 {
      ValOneAt(b, bo);
      var r := MpDiv1Norm(q, qo, a, ao, na, b[bo], 0);
      a[ao] := r;
      ValOneAt(a, ao);
      MulUnit(Pow(na));
      TopQuotientLimb(q[qo..qo + (na - nb) + 1], A, b[bo..bo + nb]);
    } else if UseLarge(na, nb) {
      ghost var estimate := MpDivNormLarge(q, qo, a, ao, na, b, bo, nb);
    } else {
      MpDivNormBase(q, qo, a, ao, na, b, bo, nb);
    }
  }

  lemma ValOneAt(a: array<limb>, o: nat)
    requires o < a.Length
    ensures Val(a[o..o + 1]) == a[o]
  {
    ValOne(a[o..o + 1]);
  }

  /** Subtracts the n-limb number a from the longer t, which is not smaller. */
  method SubFrom(t: array<limb>, n: nat, h: nat, a: array<limb>, ao: nat)
    requires n + h <= t.Length && ao + n <= a.Length && t != a
    requires Val(t[0..n + h]) >= Val(a[ao..ao + n])
    modifies t
    ensures Val(t[0..n + h]) == old(Val(t[0..n + h])) - Val(a[ao..ao + n])
    ensures Untouched(t, 0, n + h)
  {
    hide Mul, Val, Pow;
    ghost var L, H := t[0..n], t[n..n + h];
    assert t[0..n + h] == L + H;
    ValConcat(L, H);
    var c := MpSub(t, 0, t, 0, a, ao, n, 0);
    ghost var L' := t[0..n];
    assert t[n..n + h] == H;
    var k := MpSubUi(t, n, c, h);
    ghost var H' := t[n..n + h];
    assert t[0..n + h] == L' + H' by {
      assert t[0..n] == L';
    }
    ValConcat(L', H');
    ValBound(t[0..n + h]);
    SubFromArith(Val(L), Val(H), Val(L'), Val(H'), c, k, Pow(n), Pow(h), Pow(n + h), Val(a[ao..ao + n]),
                 Val(t[0..n + h])) by {
      PowAdd(n, h);
    }
  }

  lemma SubFromArith(l: int, h: int, l': int, h': int, c: int, k: int, p: int, ph: int, pp: int, a: int, v: int)
    requires l' - Mul(c, p) == l - a && h' - Mul(k, ph) == h - c
    requires v == l' + Mul(p, h') && pp == Mul(p, ph) && 0 <= v < pp && 0 <= k
    requires l + Mul(p, h) >= a
    ensures v == l + Mul(p, h) - a
  {
    MulDist(h', k * ph, p);
    MulDist(h, c, p);
    assert p * (k * ph) == k * (p * ph);
    if k >= 1 {
      MulMono(1, k, p * ph);
    }
  }

  /** libbf.c mp_recip: the Newton reciprocal of a normalized n-limb number, with top limb 1. */
  method MpRecip(r: array<limb>, ro: nat, a: array<limb>, ao: nat, n: nat)
    requires n >= 1
    requires ro + n + 1 <= r.Length && ao + n <= a.Length && r != a
    requires a[ao + n - 1] >= HALF
    modifies r
    ensures IsReciprocal(Val(r[ro..ro + n + 1]), Val(a[ao..ao + n]), Pow(2 * n))
    ensures r[ro + n] == 1
    ensures Untouched(r, ro, ro + n + 1)
    decreases 1, n, 2
  {
    hide Mul, Val, Pow, IsReciprocal;
    if n <= 2 {
      RecipSmall(r, ro, a, ao, n);
    } else {
      var l := (n - 1) / 2;
      var h := n - l;
      MpRecip(r, ro + l, a, ao + l, h);
      RecipStep(r, ro, a, ao, n, l, h);
    }
    RecipTopLimb(r[ro..ro + n + 1], a[ao..ao + n]);
  }

  lemma RecipTopLimb(r: seq<limb>, a: seq<limb>)
    requires |r| == |a| + 1 && |a| > 0 && a[|a| - 1] >= HALF
    requires IsReciprocal(Val(r), Val(a), Pow(2 * |a|))
    ensures r[|a|] == 1
  {
    hide Mul, Val, Pow, IsReciprocal;
    var n := |a|;
    NormalizedHalf(a);
    PowAdd(n, n);
    ReciprocalTop(Val(r), Val(a), Pow(n), Pow(2 * n));
    ValTop(r);
    TopIsOne(Val(r), r[n], Pow(n));
  }

  lemma TopIsOne(v: int, x: int, p: int)
    requires p <= v < 2 * p && Mul(x, p) <= v < Mul(x, p) + p
    ensures x == 1
  {
    if x >= 2 {
      MulMono(2, x, p);
    }
    if x <= 0 {
      MulMono(x, 0, p);
    }
  }

  /** The base case of mp_recip: ceil(BASE^(2n) / a) - 1 by long division. */
  method RecipSmall(r: array<limb>, ro: nat, a: array<limb>, ao: nat, n: nat)
    requires 1 <= n <= 2
    requires ro + n + 1 <= r.Length && ao + n <= a.Length && r != a
    requires a[ao + n - 1] >= HALF
    modifies r
    ensures IsReciprocal(Val(r[ro..ro + n + 1]), Val(a[ao..ao + n]), Pow(2 * n))
    ensures Untouched(r, ro, ro + n + 1)
    decreases 1, 0, 0
  {
    hide Mul, Val, Pow, IsReciprocal;
    var u := new limb[2 * n + 1];
    var t := new limb[n + 2];
    Clear(u, 0, 2 * n);
    ghost var Z := u[0..2 * n];
    u[2 * n] := 1;
    assert u[0..2 * n + 1] == Z + [1];
    ValSnoc(Z, 1);
    MulUnit(Pow(2 * n));
    MpDivNorm(t, 0, u, 0, 2 * n + 1, a, ao, n);
    ghost var Q, va := t[0..n + 2], Val(a[ao..ao + n]);
    NormalizedHalf(a[ao..ao + n]);
    SmallQuotient(Q, va, Val(u[0..n]), n);
    Copy(r, ro, t, 0, n + 1);
    assert Q == t[0..n + 1] + [0];
    ValSnoc(t[0..n + 1], 0);
    MulUnit(Pow(n + 1));
    CeilingReciprocal(Val(Q), Val(u[0..n]), va, Pow(2 * n));
    var nz := MpScanNz(u, 0, n);
    if !nz {
      ghost var v := Val(r[ro..ro + n + 1]);
      var k := MpSubUi(r, ro, 1, n + 1);
      ValBound(r[ro..ro + n + 1]);
      NoBorrow(Val(r[ro..ro + n + 1]), k, Pow(n + 1));
    }
  }

  /** The quotient of BASE^(2n) by a normalized n-limb number is at least 1 and fits n + 1 limbs. */
  lemma SmallQuotient(Q: seq<limb>, va: int, rem: int, n: nat)
    requires |Q| == n + 2 && n >= 1 && 0 <= rem < va < Pow(n) <= 2 * va
    requires Mul(Val(Q), va) + rem == Pow(2 * n)
    ensures Q[n + 1] == 0 && Val(Q) >= 1
  {
    hide Mul, Val, Pow;
    ValTop(Q);
    PowAdd(n, n);
    PowNext(n);
    SmallQuotientArith(Val(Q), Q[n + 1], va, rem, Pow(n), Pow(n + 1), Pow(2 * n));
  }

  lemma SmallQuotientArith(vq: int, top: int, va: int, rem: int, p: int, p1: int, p2: int)
    requires 0 <= rem < va < p <= 2 * va && Mul(vq, va) + rem == p2 && p2 == Mul(p, p) && p1 == p * BASE
    requires Mul(top, p1) <= vq && 0 <= top
    ensures top == 0 && vq >= 1
  {
    if top >= 1 {
      MulMono(1, top, p1);
      MulMono(4 * p, vq, va);
      MulMono(p, 2 * va, p);
      MulMono(1, p, p);
    }
    if vq <= 0 {
      MulMono(vq, 0, va);
      MulMono(va, p, p);
      MulMono(1, p, p);
    }
  }

  /** What the half-length reciprocal x says about the full number: BASE^(n+h) - a * x < 2 * a. */
  lemma RecipErrorInit(A: seq<limb>, X: seq<limb>, l: nat, h: nat)
    requires |A| == l + h && |X| == h + 1 && X[h] == 1
    requires IsReciprocal(Val(X), Val(A[l..]), Pow(2 * h))
    ensures Pow(l + 2 * h) < Mul(Val(A), Val(X)) + 2 * Val(A)
    ensures Val(X) >= Pow(h)
  {
    hide Mul, Val, Pow;
    ValTop(X);
    MulUnit(Pow(h));
    ValSplit(A, l);
    PowAdd(l, 2 * h);
    RecipErrorArith(Val(A), Val(A[..l]), Val(A[l..]), Val(X), Pow(l), Pow(2 * h), Pow(l + 2 * h));
  }

  lemma RecipErrorArith(va: int, al: int, ah: int, x: int, p: int, p2h: int, bigN: int)
    requires va == al + Mul(p, ah) && 0 <= al && p > 0 && x >= 0
    requires p2h < Mul(ah, x) + 2 * ah && bigN == Mul(p, p2h)
    ensures bigN < Mul(va, x) + 2 * va
  {
    StrictMul(p2h, ah * x + 2 * ah, p);
    MulDist(al, p * ah, x);
    MulMono(0, al, x);
    MulDist(ah * x, 2 * ah, p);
    assert p * ah * x == ah * x * p;
  }

  /** The correction loop of mp_recip: lowers x until a * x < BASE^(n+h), keeping t = a * x. */
  method RecipLower(t: array<limb>, r: array<limb>, xo: nat, a: array<limb>, ao: nat, n: nat, h: nat)
    requires n >= 1 && n + h + 1 <= t.Length && xo + h + 1 <= r.Length && ao + n <= a.Length
    requires t != r && t != a && r != a
    requires a[ao + n - 1] >= HALF
    requires Val(t[0..n + h + 1]) == Mul(Val(a[ao..ao + n]), Val(r[xo..xo + h + 1]))
    requires Pow(n + h) < Val(t[0..n + h + 1]) + 2 * Val(a[ao..ao + n])
    requires Val(r[xo..xo + h + 1]) >= Pow(h)
    modifies t, r
    ensures Val(t[0..n + h + 1]) == Mul(Val(a[ao..ao + n]), Val(r[xo..xo + h + 1]))
    ensures Pow(n + h) < Val(t[0..n + h + 1]) + 2 * Val(a[ao..ao + n])
    ensures Val(t[0..n + h + 1]) < Pow(n + h) && t[n + h] == 0
    ensures r[xo + h] == 1
    ensures Untouched(t, 0, n + h + 1) && Untouched(r, xo, xo + h + 1)
  {
    hide Mul, Val, Pow;
    ghost var va := Val(a[ao..ao + n]);
    NormalizedHalf(a[ao..ao + n]);
    while t[n + h] != 0
      invariant Val(t[0..n + h + 1]) == Mul(va, Val(r[xo..xo + h + 1]))
      invariant Pow(n + h) < Val(t[0..n + h + 1]) + 2 * va
      invariant Val(r[xo..xo + h + 1]) >= Pow(h)
      invariant Untouched(t, 0, n + h + 1) && Untouched(r, xo, xo + h + 1)
      decreases Val(r[xo..xo + h + 1])
    {
      ghost var x := Val(r[xo..xo + h + 1]);
      TopNonzero(t[0..n + h + 1]);
      LowerOnce(va, x, Val(t[0..n + h + 1]), Pow(n), Pow(h), Pow(n + h)) by {
        PowAdd(n, h);
      }
      var k := MpSubUi(r, xo, 1, h + 1);
      ValBound(r[xo..xo + h + 1]);
      NoBorrow(Val(r[xo..xo + h + 1]), k, Pow(h + 1));
      SubFrom(t, n, h + 1, a, ao);
    }
    TopZero(t[0..n + h + 1]);
    PowAdd(n, h);
    XTop(va, Val(r[xo..xo + h + 1]), Pow(n), Pow(h));
    ValTop(r[xo..xo + h + 1]);
    TopIsOne(Val(r[xo..xo + h + 1]), r[xo + h], Pow(h));
  }

  lemma TopNonzero(t: seq<limb>)
    requires |t| > 0 && t[|t| - 1] != 0
    ensures Val(t) >= Pow(|t| - 1)
  {
    ValTop(t);
    MulMono(1, t[|t| - 1], Pow(|t| - 1));
  }

  lemma TopZero(t: seq<limb>)
    requires |t| > 0 && t[|t| - 1] == 0
    ensures Val(t) < Pow(|t| - 1)
  {
    ValTop(t);
  }

  lemma LowerOnce(va: int, x: int, t: int, p: int, ph: int, bigN: int)
    requires 0 < va < p && t == Mul(va, x) && t >= bigN && bigN == Mul(p, ph) && 0 < ph <= x
    ensures x > ph && t >= va && Mul(va, x - 1) == t - va
  {
    MulDist(x, 1, va);
    MulMono(1, x, va);
    if x <= ph {
      MulMono(x, ph, va);
      StrictMul(va, p, ph);
    }
  }

  lemma XTop(va: int, x: int, p: int, ph: int)
    requires p <= 2 * va && Mul(va, x) < Mul(p, ph) && 0 < ph && 0 < va
    ensures x < 2 * ph
  {
    if x >= 2 * ph {
      MulMono(2 * ph, x, va);
      MulMono(p, 2 * va, ph);
    }
  }

  /** t := BASE^m - t in m + 1 limbs, for 0 < t < BASE^m: negate, then bump the top limb. */
  method RecipComplement(t: array<limb>, m: nat)
    requires m + 1 <= t.Length && 0 < Val(t[0..m + 1]) < Pow(m)
    modifies t
    ensures Val(t[0..m + 1]) == Pow(m) - old(Val(t[0..m + 1]))
    ensures Untouched(t, 0, m + 1)
  {
    hide Mul, Val, Pow;
    ghost var v := Val(t[0..m + 1]);
    var k := MpNeg(t, 0, t, 0, m + 1, 0);
    ghost var T := t[0..m + 1];
    ValBound(T);
    ValTop(T);
    PowNext(m);
    NegTop(v, Val(T), k, T[m], Pow(m), Pow(m + 1));
    t[m] := (t[m] + 1) % BASE;
    assert T[..m] == t[0..m];
    ValPrefix(T, m);
    ValPrefix(t[0..m + 1], m);
    assert T[..m + 1] == T && t[0..m + 1][..m + 1] == t[0..m + 1] && t[0..m + 1][..m] == t[0..m];
    MulUnit(Pow(m));
  }

  lemma NegTop(v: int, w: int, k: int, top: int, p: int, p1: int)
    requires 0 < v < p && w - Mul(k, p1) == 0 - v && 0 <= k <= 1 && 0 <= w && p1 == p * BASE
    requires Mul(top, p) <= w < Mul(top, p) + p && 0 <= top < BASE
    ensures top == BASE - 1 && w - Mul(top, p) == p - v
  {
    if k == 0 {
      assert false;
    }
    if top < BASE - 1 {
      MulMono(top, BASE - 2, p);
    }
  }

  /** The numeric content of the Newton step, on the values of the limb sequences involved. */
  lemma RecipBounds(A: seq<limb>, X: seq<limb>, T: seq<limb>, U: seq<limb>, l: nat, h: nat)
    requires |A| >= 3 && l == (|A| - 1) / 2 && h == |A| - l && A[|A| - 1] >= HALF
    requires |X| == h + 1 && X[h] == 1 && |T| == |A| + h + 1 && |U| == 3 * h + 2
    requires Val(T) == Pow(|A| + h) - Mul(Val(A), Val(X)) && 0 < Val(T) < 2 * Val(A)
    requires Val(U) == Mul(Val(T[l..]), Val(X))
    ensures IsReciprocal(Mul(Val(X), Pow(l)) + Val(U[2 * h - l..3 * h]), Val(A), Pow(2 * |A|))
  {
    hide Mul, Val, Pow, IsReciprocal;
    var n, k := |A|, 2 * h - l;
    NormalizedHalf(A);
    ValSplit(T, l);
    ValBound(T[..l]);
    ValTop(X);
    MulUnit(Pow(h));
    var tm, x, t := Val(T[l..]), Val(X), Val(T);
    // U fits 3h limbs
    PowAdd(l, h);
    PowAdd(h, h);
    PowAdd(2 * h, h);
    PowGrows(h);
    ProductSmall(tm, x, t, Val(A), Pow(l), Pow(h), Pow(n), Pow(2 * h), Pow(3 * h), Val(T[..l]));
    HighZero(U, 3 * h);
    // f is the floor of U by BASE^k
    var f := Val(U[k..3 * h]);
    ValSplit(U[..3 * h], k);
    assert U[..3 * h][k..] == U[k..3 * h] && U[..3 * h][..k] == U[..k];
    ValBound(U[..k]);
    PowAdd(k, l);
    PowAdd(l, 2 * h);
    PowAdd(n + h, l);
    PowAdd(n, n);
    PowAdd(n, 2 * h - n);
    PowGrows(2 * h - n);
    RecipStepArith(Val(A), x, t, Pow(l), Pow(k), Pow(n + h), tm, f, Pow(n), Pow(2 * n), Pow(2 * h),
                   Pow(2 * h - n), Val(T[..l]), Val(U[..k]));
  }

  lemma PowGrows(h: nat)
    requires h >= 1
    ensures Pow(h) >= BASE
  {
    PowMonotone(1, h);
    assert Pow(1) == Pow(0) * BASE;
  }

  lemma ProductSmall(tm: int, x: int, t: int, va: int, p: int, ph: int, pn: int, p2h: int, p3h: int, tl: int)
    requires t == tl + Mul(p, tm) && 0 <= tl && t < 2 * va && va < pn && pn == Mul(p, ph)
    requires 0 <= tm && 0 < p && 0 <= x < 2 * ph && 4 <= ph && p2h == Mul(ph, ph) && p3h == Mul(p2h, ph)
    ensures 0 <= Mul(tm, x) < p3h
  {
    if tm >= 2 * ph {
      MulMono(2 * ph, tm, p);
      assert p * tm == tm * p && p * ph == ph * p;
    }
    MulMono(0, tm, x);
    MulMono(tm, 2 * ph, x);
    StrictMul(x, 2 * ph, 2 * ph);
    MulMono(4, ph, ph * ph);
  }

  lemma HighZero(U: seq<limb>, m: nat)
    requires m <= |U| && Val(U) < Pow(m)
    ensures Val(U) == Val(U[..m])
  {
    hide Mul, Val, Pow;
    ValSplit(U, m);
    NoHighPart(Val(U[..m]), Val(U[m..]), Pow(m));
  }

  lemma NoHighPart(low: int, high: int, p: int)
    requires 0 <= low && 0 <= high && 0 < p && low + Mul(p, high) < p
    ensures Mul(p, high) == 0
  {
    if high >= 1 {
      MulMono(1, high, p);
    }
  }

  lemma RecipStepArith(va: int, x: int, t: int, p: int, k: int, bigN: int, tm: int, f: int, bn: int, b2n: int,
                       p2h: int, gap: int, tl: int, ul: int)
    requires 0 < va < bn <= 2 * va && x > 0 && p > 0 && k > 0
    requires t == bigN - Mul(va, x) && 0 < t < 2 * va
    requires t == tl + Mul(p, tm) && 0 <= tl < p
    requires Mul(tm, x) == ul + Mul(k, f) && 0 <= ul < k
    requires p2h == Mul(k, p) && bigN == Mul(p, p2h) && Mul(bigN, p) == b2n && b2n == Mul(bn, bn)
    requires p2h == Mul(bn, gap) && gap >= BASE
    ensures IsReciprocal(Mul(x, p) + f, va, b2n)
  {
    MulMono(BASE, gap, bn);
    assert k * f == f * k && p * tm == tm * p;
    NewtonStep(va, x, t, p, k, bigN, tm, f, x * p + f, bn, b2n);
  }

  /** The final assembly of mp_recip: the low limbs come from u, the next h limbs are added to x, and
      the dropped carry is zero. */
  method RecipJoin(r: array<limb>, ro: nat, u: array<limb>, n: nat, l: nat, h: nat)
    requires h <= n == l + h && l <= h
    requires ro + n + 1 <= r.Length && 3 * h <= u.Length && r != u
    requires r[ro + n] == 1
    requires Mul(Val(r[ro + l..ro + n + 1]), Pow(l)) + Val(u[2 * h - l..3 * h]) < 2 * Pow(n)
    modifies r
    ensures Val(r[ro..ro + n + 1]) == Mul(old(Val(r[ro + l..ro + n + 1])), Pow(l)) + Val(u[2 * h - l..3 * h])
    ensures Untouched(r, ro, ro + n + 1)
  {
    hide Mul, Val, Pow;
    ghost var X := r[ro + l..ro + n];
    TopOne(r[ro + l..ro + n + 1], 0, h);
    assert r[ro + l..ro + n + 1][0..h] == X;
    ghost var Y0, Y1 := u[2 * h - l..2 * h], u[2 * h..3 * h];
    assert u[2 * h - l..3 * h] == Y0 + Y1;
    ValConcat(Y0, Y1);
    Copy(r, ro, u, 2 * h - l, l);
    assert r[ro + l..ro + n] == X;
    assert r[ro..ro + l] == Y0;
    ghost var c, M := AddTop(r, ro, u, n, l, h, Y0, Y1);
    PowAdd(l, h);
    RecipJoinArith(Val(X), Val(Y0), Val(Y1), M, c, Pow(l), Pow(h), Pow(n));
  }

  /** Adds the high limbs of the correction below the top limb. */
  method AddTop(r: array<limb>, ro: nat, u: array<limb>, n: nat, l: nat, h: nat, ghost Y0: seq<limb>,
                ghost Y1: seq<limb>)
    returns (ghost c: int, ghost M: int)
    requires n == l + h && ro + n + 1 <= r.Length && 3 * h <= u.Length && r != u
    requires r[ro + n] == 1 && r[ro..ro + l] == Y0 && u[2 * h..3 * h] == Y1
    modifies r
    ensures 0 <= c && 0 <= M && M + Mul(c, Pow(h)) == old(Val(r[ro + l..ro + n])) + Val(Y1)
    ensures Val(r[ro..ro + n + 1]) == Val(Y0) + Mul(Pow(l), M + Pow(h))
    ensures Untouched(r, ro, ro + n + 1)
  {
    hide Mul, Val, Pow;
    var carry := MpAdd(r, ro + l, r, ro + l, u, 2 * h, h, 0);
    c := carry;
    assert r[ro..ro + l] == Y0;
    ghost var R := r[ro..ro + n + 1];
    assert R[..l] == r[ro..ro + l] && R[l..n] == r[ro + l..ro + l + h];
    TopOne(R, l, n);
    M := Val(R[l..n]);
  }

  /** A number whose top limb is one, cut at l. */
  lemma TopOne(R: seq<limb>, l: nat, n: nat)
    requires |R| == n + 1 && R[n] == 1 && l <= n
    ensures Val(R) == Val(R[..l]) + Mul(Pow(l), Val(R[l..n]) + Pow(n - l))
    ensures l == 0 ==> Val(R) == Val(R[..n]) + Pow(n)
  {
    hide Mul, Val, Pow;
    assert R == R[..l] + (R[l..n] + [1]);
    ValConcat(R[..l], R[l..n] + [1]);
    ValSnoc(R[l..n], 1);
    MulUnit(Pow(n - l));
    assert R[..n] + [1] == R;
    ValSnoc(R[..n], 1);
    MulUnit(Pow(n));
  }

  lemma RecipJoinArith(x: int, y0: int, y1: int, m: int, c: int, p: int, ph: int, pn: int)
    requires pn == Mul(p, ph) && m + Mul(c, ph) == x + y1 && 0 <= c && 0 <= m && 0 <= y0 && p > 0 && ph > 0
    requires Mul(x + ph, p) + (y0 + Mul(p, y1)) < 2 * pn
    ensures y0 + Mul(p, m + ph) == Mul(x + ph, p) + (y0 + Mul(p, y1))
  {
    MulDist(x, ph, p);
    MulDist(m, ph, p);
    assert p * x + p * y1 == p * (m + c * ph) by { MulDist(x, y1, p); }
    MulDist(m, c * ph, p);
    MulMono(0, m, p);
    if c >= 1 {
      MulMono(1, c, ph);
      MulMono(ph, c * ph, p);
    }
  }

  /** The Newton step of mp_recip: the top h + 1 limbs of r hold a reciprocal of the top h limbs of a. */
  method RecipStep(r: array<limb>, ro: nat, a: array<limb>, ao: nat, n: nat, l: nat, h: nat)
    requires n >= 3 && l == (n - 1) / 2 && h == n - l
    requires ro + n + 1 <= r.Length && ao + n <= a.Length && r != a
    requires a[ao + n - 1] >= HALF
    requires IsReciprocal(Val(r[ro + l..ro + n + 1]), Val(a[ao + l..ao + n]), Pow(2 * h))
    requires r[ro + n] == 1
    modifies r
    ensures IsReciprocal(Val(r[ro..ro + n + 1]), Val(a[ao..ao + n]), Pow(2 * n))
    ensures Untouched(r, ro, ro + n + 1)
  {
    hide Mul, Val, Pow, IsReciprocal;
    var t := new limb[n + h + 1];
    var u := new limb[n + 2 * h - l + 2];
    ghost var A := a[ao..ao + n];
    NormalizedHalf(A);
    MpMul(t, 0, a, ao, n, r, ro + l, h + 1);
    assert A[l..] == a[ao + l..ao + n];
    RecipErrorInit(A, r[ro + l..ro + n + 1], l, h);
    RecipLower(t, r, ro + l, a, ao, n, h);
    ghost var X := r[ro + l..ro + n + 1];
    ProductPositive(Val(A), Val(X), X);
    RecipComplement(t, n + h);
    MpMul(u, 0, t, l, n + h + 1 - l, r, ro + l, h + 1);
    ghost var T, U := t[0..n + h + 1], u[0..n + 2 * h - l + 2];
    assert t[l..n + h + 1] == T[l..];
    RecipBounds(A, X, T, U, l, h);
    assert U[2 * h - l..3 * h] == u[2 * h - l..3 * h];
    PowAdd(n, n);
    ReciprocalTop(Mul(Val(X), Pow(l)) + Val(u[2 * h - l..3 * h]), Val(A), Pow(n), Pow(2 * n));
    RecipJoin(r, ro, u, n, l, h);
  }

  lemma ProductPositive(a: int, x: int, X: seq<limb>)
    requires a > 0 && x == Val(X) && |X| > 0 && X[|X| - 1] > 0
    ensures Mul(a, x) > 0
  {
    ValPositive(X);
    MulMono(1, x, a);
  }

  /** libbf.c mp_divnorm_large: estimates the quotient with a reciprocal of the divisor's top limbs and
      corrects it upwards. */
  method MpDivNormLarge(q: array<limb>, qo: nat, a: array<limb>, ao: nat, na: nat, b: array<limb>, bo: nat, nb: nat)
    returns (ghost estimate: nat)
    requires nb >= 1 && na > nb
    requires qo + (na - nb) + 1 <= q.Length && ao + na <= a.Length && bo + nb <= b.Length
    requires q != a && q != b && a != b
    requires b[bo + nb - 1] >= HALF
    modifies q, a
    ensures Mul(Val(q[qo..qo + (na - nb) + 1]), Val(b[bo..bo + nb])) + Val(a[ao..ao + nb]) == old(Val(a[ao..ao + na]))
    ensures Val(a[ao..ao + nb]) < Val(b[bo..bo + nb])
    ensures q[qo + (na - nb)] <= 1
    ensures IsEstimate(estimate, old(a[ao..ao + na]), b[bo..bo + nb])
    ensures estimate <= Val(q[qo..qo + (na - nb) + 1]) <= estimate + 13
    ensures Untouched(q, qo, qo + (na - nb) + 1) && Untouched(a, ao, ao + na)
    decreases 2, 0
  {
    hide Mul, Val, Pow;
    var nq := na - nb;
    var n := if nq < nb then nq + 1 else nq;
    var inv := new limb[n + 1];
    LargeInverse(inv, n, b, bo, nb);
    ghost var A, B := a[ao..ao + na], b[bo..bo + nb];
    ghost var vi := Val(inv[0..n + 1]);
    LargeEstimate(q, qo, a, ao, na, n, nq, inv);
    NormalizedHalf(B);
    ValBound(A);
    estimate := Val(q[qo..qo + nq + 1]);
    assert IsEstimate(estimate, A, B) by { EstimateBy(estimate, A, B, vi, n, nq); }
    LargeBounds(A, B, vi, estimate, n, nq);
    LargeSubtract(q, qo, a, ao, na, b, bo, nb);
    LargeCorrect(q, qo, a, ao, na, b, bo, nb, Val(A));
    FewCorrections(estimate, Val(q[qo..qo + nq + 1]), Val(B), Val(A), Val(a[ao..ao + nb]), Pow(nb));
    TopQuotientLimb(q[qo..qo + nq + 1], A, B);
  }

  /** inv is a reciprocal of B from below, for quotients of n limbs. */
  ghost predicate NearInverse(inv: nat, B: seq<limb>, n: nat) {
    Mul(Val(B), inv) <= Pow(n + |B|) < Mul(Val(B), inv) + 5 * Pow(|B|)
  }

  /** The size of the reciprocal. */
  function InverseSize(la: nat, lb: nat): nat
    requires la > lb
  {
    if la - lb < lb then la - lb + 1 else la - lb
  }

  /** q is the top part of the product of the dividend with a reciprocal of the divisor. */
  ghost predicate IsEstimate(q: nat, A: seq<limb>, B: seq<limb>) {
    |A| > |B| && exists inv: nat :: EstimatedBy(q, A, B, inv)
  }

  ghost predicate EstimatedBy(q: nat, A: seq<limb>, B: seq<limb>, inv: nat)
    requires |A| > |B|
  {
    var n := InverseSize(|A|, |B|);
    NearInverse(inv, B, n) && Estimated(q, inv, A, n, |A| - |B|)
  }

  lemma EstimateBy(q: nat, A: seq<limb>, B: seq<limb>, inv: nat, n: nat, nq: nat)
    requires |A| > |B| && nq == |A| - |B| && n == if nq < |B| then nq + 1 else nq
    requires Mul(Val(B), inv) <= Pow(n + |B|) < Mul(Val(B), inv) + 5 * Pow(|B|) && Estimated(q, inv, A, n, nq)
    ensures IsEstimate(q, A, B)
  {
    hide Mul, Val, Pow;
    assert EstimatedBy(q, A, B, inv);
  }

  /** The estimate is never above the quotient, and the loop that raises it runs at most thirteen times. */
  lemma FewCorrections(estimate: int, q: int, b: int, a: int, r: int, pb: int)
    requires Mul(estimate, b) <= a < Mul(estimate, b) + 7 * pb && pb <= 2 * b
    requires Mul(q, b) + r == a && 0 <= r < b
    ensures estimate <= q <= estimate + 13
  {
    if q < estimate {
      MulMono(q + 1, estimate, b);
      MulDist(q, 1, b);
    } else if q >= estimate + 14 {
      MulMono(estimate + 14, q, b);
      MulDist(estimate, 14, b);
    }
  }

  /** An approximate reciprocal of b from below, good to 5 * BASE^nb at scale BASE^(n+nb). */
  method LargeInverse(inv: array<limb>, n: nat, b: array<limb>, bo: nat, nb: nat)
    requires n >= 1 && nb >= 1
    requires n + 1 <= inv.Length && bo + nb <= b.Length && inv != b
    requires b[bo + nb - 1] >= HALF
    modifies inv
    ensures Mul(Val(b[bo..bo + nb]), Val(inv[0..n + 1])) <= Pow(n + nb)
    ensures Pow(n + nb) < Mul(Val(b[bo..bo + nb]), Val(inv[0..n + 1])) + 5 * Pow(nb)
    decreases 1, n + 1, 1
  {
    hide Mul, Val, Pow, IsReciprocal;
    var t := new limb[2 * (n + 1)];
    ghost var B := b[bo..bo + nb];
    NormalizedHalf(B);
    if n >= nb {
      Clear(t, 0, n - nb);
      ghost var Z := t[0..n - nb];
      Copy(t, n - nb, b, bo, nb);
      assert t[0..n] == Z + B by {
        assert t[0..n - nb] == Z;
      }
      ValConcat(Z, B);
      MpRecip(inv, 0, t, 0, n);
      PaddedInverse(Val(B), Val(t[0..n]), Val(inv[0..n + 1]), n, nb);
    } else {
      TruncatedDivisorInverse(inv, t, n, b, bo, nb);
    }
  }

  /** The divisor has more limbs than the quotient: keep its top n limbs and add one, so that the
      reciprocal cannot be too large. */
  method TruncatedDivisorInverse(inv: array<limb>, t: array<limb>, n: nat, b: array<limb>, bo: nat, nb: nat)
    requires 1 <= n < nb
    requires n + 1 <= inv.Length && n <= t.Length && bo + nb <= b.Length
    requires inv != b && t != b && inv != t
    requires b[bo + nb - 1] >= HALF
    modifies inv, t
    ensures Mul(Val(b[bo..bo + nb]), Val(inv[0..n + 1])) <= Pow(n + nb)
    ensures Pow(n + nb) < Mul(Val(b[bo..bo + nb]), Val(inv[0..n + 1])) + 5 * Pow(nb)
    decreases 1, n + 1, 0
  {
    hide Mul, Val, Pow, IsReciprocal;
    ghost var B := b[bo..bo + nb];
    Copy(t, 0, b, bo + nb - n, n);
    ghost var H := t[0..n];
    assert H == B[nb - n..];
    var c := MpAddUi(t, 0, 1, n);
    ghost var T := t[0..n];
    if c != 0 {
      Clear(inv, 0, n);
      ghost var Z := inv[0..n];
      inv[n] := 1;
      assert inv[0..n + 1] == Z + [1];
      ValSnoc(Z, 1);
      MulUnit(Pow(n));
      OverflowInverse(H, T, c);
    } else {
      MulUnit(Pow(n));
      StillNormalized(H, T);
      MpRecip(inv, 0, t, 0, n);
      RecipRange(T, Val(inv[0..n + 1]));
    }
    NormalizedHalf(B);
    TruncatedInverse(B, Val(H) + 1, H, Val(inv[0..n + 1]), n);
  }

  lemma RecipRange(T: seq<limb>, x: int)
    requires |T| > 0 && T[|T| - 1] >= HALF
    requires IsReciprocal(x, Val(T), Pow(2 * |T|))
    ensures Mul(Val(T), x) <= Pow(2 * |T|) < Mul(Val(T), x) + 2 * Val(T)
    ensures 0 <= x <= 2 * Pow(|T|)
  {
    NormalizedHalf(T);
    PowAdd(|T|, |T|);
    ReciprocalTop(x, Val(T), Pow(|T|), Pow(2 * |T|));
  }

  lemma StillNormalized(H: seq<limb>, T: seq<limb>)
    requires |H| == |T| > 0 && H[|H| - 1] >= HALF && Val(T) == Val(H) + 1
    ensures T[|T| - 1] >= HALF
  {
    if T[|T| - 1] < HALF {
      ValTopLess(T, H);
    }
  }

  lemma PaddedInverse(vb: int, bt: int, inv: int, n: nat, nb: nat)
    requires nb <= n && 0 < vb < Pow(nb) && bt == Mul(Pow(n - nb), vb)
    requires IsReciprocal(inv, bt, Pow(2 * n))
    ensures Mul(vb, inv) <= Pow(n + nb) < Mul(vb, inv) + 5 * Pow(nb)
  {
    hide Pow;
    PowAdd(n + nb, n - nb);
    var z := Pow(n - nb);
    assert bt == vb * z;
    PaddedDivisor(vb, z, inv, Pow(2 * n), Pow(n + nb), Pow(nb));
  }

  /** The increment overflowed: the incremented divisor is exactly BASE^n and is its own reciprocal. */
  lemma OverflowInverse(H: seq<limb>, T: seq<limb>, c: int)
    requires |H| == |T| && c >= 1
    requires Val(T) + Mul(c, Pow(|H|)) == Val(H) + 1
    ensures Val(H) + 1 == Pow(|H|)
    ensures Mul(Val(H) + 1, Pow(|H|)) == Pow(2 * |H|)
  {
    ValBound(H);
    MulMono(1, c, Pow(|H|));
    PowAdd(|H|, |H|);
  }

  lemma TruncatedInverse(B: seq<limb>, bt: int, H: seq<limb>, inv: int, n: nat)
    requires 1 <= n < |B| && Val(B) > 0 && H == B[|B| - n..] && bt == Val(H) + 1
    requires Mul(bt, inv) <= Pow(2 * n) < Mul(bt, inv) + 2 * bt
    requires 0 <= inv <= 2 * Pow(n)
    ensures Mul(Val(B), inv) <= Pow(n + |B|) < Mul(Val(B), inv) + 5 * Pow(|B|)
  {
    hide Pow, Mul, Val;
    var w := Pow(|B| - n);
    ValSplit(B, |B| - n);
    ValBound(B[..|B| - n]);
    ValBound(B);
    PowAdd(2 * n, |B| - n);
    PowAdd(n, |B| - n);
    PowGrows(n);
    TruncatedArith(Val(B), bt, Val(H), Val(B[..|B| - n]), w, inv, Pow(2 * n), Pow(n + |B|), Pow(|B|), Pow(n));
  }

  lemma TruncatedArith(vb: int, bt: int, h: int, low: int, w: int, inv: int, b2n: int, bigM: int, pb: int, pn: int)
    requires 0 < vb < pb && bt == h + 1 && vb == low + Mul(w, h) && 0 <= low < w
    requires Mul(bt, inv) <= b2n < Mul(bt, inv) + 2 * bt
    requires 0 <= inv <= 2 * pn && pb == Mul(pn, w) && bigM == Mul(b2n, w) && pn >= 2
    ensures Mul(vb, inv) <= bigM < Mul(vb, inv) + 5 * pb
  {
    MulDist(h, 1, w);
    assert h * w == w * h;
    MulMono(inv, 2 * pn, w);
    MulMono(2, pn, w);
    TruncatedDivisor(vb, bt, w, inv, b2n, bigM, pb);
  }

  /** Q = the top limbs of a times the reciprocal, cut to nq + 1 limbs. */
  method LargeEstimate(q: array<limb>, qo: nat, a: array<limb>, ao: nat, na: nat, n: nat, nq: nat, inv: array<limb>)
    requires n + 1 <= na && nq <= n && n + 1 <= inv.Length && ao + na <= a.Length && qo + nq + 1 <= q.Length
    requires q != a && q != inv && a != inv
    modifies q
    ensures Estimated(Val(q[qo..qo + nq + 1]), Val(inv[0..n + 1]), a[ao..ao + na], n, nq)
    ensures Untouched(q, qo, qo + nq + 1)
  {
    hide Mul, Val, Pow;
    var t := new limb[2 * (n + 1)];
    MpMul(t, 0, inv, 0, n + 1, a, ao + na - (n + 1), n + 1);
    ghost var T, A := t[0..2 * (n + 1)], a[ao..ao + na];
    assert a[ao + na - (n + 1)..ao + na - (n + 1) + (n + 1)] == A[na - (n + 1)..];
    var m := 2 * (n + 1) - (nq + 1);
    Copy(q, qo, t, m, nq + 1);
    assert t[m..m + (nq + 1)] == T[m..];
    ValSplit(T, m);
    ValBound(T[..m]);
    MulSwap(Pow(m), Val(T[m..]));
  }

  /** q is the product of the reciprocal with the top n + 1 limbs of A, divided by BASE^(2n+1-nq). */
  ghost predicate Estimated(q: int, inv: int, A: seq<limb>, n: nat, nq: nat) {
    && n + 1 <= |A| && nq <= n
    && var product, unit := Mul(inv, Val(A[|A| - (n + 1)..])), Pow(2 * n + 1 - nq);
       Mul(q, unit) <= product < Mul(q, unit) + unit
  }

  lemma LargeBounds(A: seq<limb>, B: seq<limb>, inv: nat, q: int, n: nat, nq: nat)
    requires |B| >= 1 && |A| == nq + |B| && nq >= 1 && n == if nq < |B| then nq + 1 else nq
    requires Val(B) > 0
    requires Mul(Val(B), inv) <= Pow(n + |B|) < Mul(Val(B), inv) + 5 * Pow(|B|)
    requires Estimated(q, inv, A, n, nq)
    ensures Mul(q, Val(B)) <= Val(A) < Mul(q, Val(B)) + 7 * Pow(|B|) && 7 * Pow(|B|) <= Pow(|B| + 1)
  {
    hide Mul, Val, Pow;
    var s, m := |A| - (n + 1), 2 * n + 1 - nq;
    ValSplit(A, s);
    ValBound(A[..s]);
    ValBound(A);
    ValBound(B);
    PowAdd(m, s);
    PowAdd(n + |B|, |A| - n);
    PowAdd(|B|, |A|);
    PowMonotone(|A| - n, |B|);
    PowMonotone(s, |B|);
    PowNext(|B|);
    LargeBoundsArith(Val(A), Val(B), inv, Val(A[s..]), Val(A[..s]), q, Pow(m), Pow(s), Pow(n + |B|), Pow(|B|),
                     Pow(|A|), Pow(|A| - n), Pow(|B| + |A|), Pow(|B| + 1));
  }

  lemma LargeBoundsArith(a: int, b: int, inv: int, hi: int, low: int, q: int, m: int, s: int, bigM: int, pb: int,
                         pa: int, pd: int, pba: int, pb1: int)
    requires 0 <= a < pa && 0 < b < pb && 0 <= inv && 0 < m && 0 < s <= pb && bigM == Mul(m, s)
    requires Mul(b, inv) <= bigM < Mul(b, inv) + 5 * pb
    requires a == low + Mul(s, hi) && 0 <= low < s
    requires Mul(q, m) <= Mul(inv, hi) < Mul(q, m) + m
    requires Mul(bigM, pd) == pba && pba == Mul(pb, pa) && 0 < pd <= pb && pb1 == pb * BASE
    ensures Mul(q, b) <= a < Mul(q, b) + 7 * pb && 7 * pb <= pb1
  {
    assert hi * s == s * hi && b * q == q * b;
    EstimatedQuotient(a, b, inv, hi, q, m, s, bigM, 5 * pb);
    MulMono(1, m, s);
    LargeGap(a, b, s, bigM, pb, pa, pd, a - b * q);
  }

  lemma LargeGap(a: int, b: int, s: int, bigM: int, pb: int, pa: int, pd: int, gap: int)
    requires 0 <= a < pa && 0 < b < pb && 0 < s <= pb && 0 < bigM
    requires gap * bigM <= 5 * pb * a + bigM * s + b * bigM
    requires bigM * pd == pb * pa && 0 < pd <= pb
    ensures gap < 7 * pb
  {
    MulMono(a, pa, pb);
    MulMono(pd, pb, bigM);
    MulMono(s, pb, bigM);
    StrictMul(b, pb, bigM);
    assert 5 * pb * a == 5 * (a * pb);
    if gap >= 7 * pb {
      MulMono(7 * pb, gap, bigM);
    }
  }

  /** R = A - B * Q on the low nb + 1 limbs only: the higher limbs are known to cancel. */
  method LargeSubtract(q: array<limb>, qo: nat, a: array<limb>, ao: nat, na: nat, b: array<limb>, bo: nat, nb: nat)
    requires nb >= 1 && na > nb
    requires qo + (na - nb) + 1 <= q.Length && ao + na <= a.Length && bo + nb <= b.Length
    requires q != a && q != b && a != b
    requires Mul(Val(q[qo..qo + (na - nb) + 1]), Val(b[bo..bo + nb])) <= Val(a[ao..ao + na])
    requires Val(a[ao..ao + na]) < Mul(Val(q[qo..qo + (na - nb) + 1]), Val(b[bo..bo + nb])) + Pow(nb + 1)
    modifies a
    ensures Mul(Val(q[qo..qo + (na - nb) + 1]), Val(b[bo..bo + nb])) + Val(a[ao..ao + nb + 1])
            == old(Val(a[ao..ao + na]))
    ensures Untouched(a, ao, ao + na)
  {
    hide Mul, Val, Pow;
    var t := new limb[na + 1];
    MpMul(t, 0, q, qo, na - nb + 1, b, bo, nb);
    ghost var T, A := t[0..na + 1], a[ao..ao + na];
    ValSplit(T, nb + 1);
    ValSplit(A, nb + 1);
    assert t[0..nb + 1] == T[..nb + 1] && a[ao..ao + (nb + 1)] == A[..nb + 1];
    var c := MpSub(a, ao, a, ao, t, 0, nb + 1, 0);
    ValBound(a[ao..ao + (nb + 1)]);
    LowDifference(Val(A), Val(A[..nb + 1]), Val(A[nb + 1..]), Val(T), Val(T[..nb + 1]), Val(T[nb + 1..]),
                  Val(a[ao..ao + (nb + 1)]), c, Pow(nb + 1));
  }

  lemma LowDifference(a: int, al: int, ah: int, t: int, tl: int, th: int, r: int, c: int, p: int)
    requires a == al + Mul(p, ah) && t == tl + Mul(p, th) && 0 <= a - t < p
    requires r - Mul(c, p) == al - tl && 0 <= r < p
    ensures t + r == a
  {
    var z := ah - th - c;
    MulDist(ah, th, p);
    MulDist(ah - th, c, p);
    assert a - t == r + z * p;
    if z >= 1 {
      MulMono(1, z, p);
    } else if z <= -1 {
      MulMono(z, -1, p);
    }
  }

  /** The correction loop of mp_divnorm_large: while the remainder is not below the divisor, subtract the
      divisor and raise the quotient. */
  method LargeCorrect(q: array<limb>, qo: nat, a: array<limb>, ao: nat, na: nat, b: array<limb>, bo: nat, nb: nat,
                      ghost t: nat)
    requires nb >= 1 && na > nb
    requires qo + (na - nb) + 1 <= q.Length && ao + na <= a.Length && bo + nb <= b.Length
    requires q != a && q != b && a != b
    requires b[bo + nb - 1] >= HALF && t < Pow(na)
    requires Mul(Val(q[qo..qo + (na - nb) + 1]), Val(b[bo..bo + nb])) + Val(a[ao..ao + nb + 1]) == t
    modifies q, a
    ensures Mul(Val(q[qo..qo + (na - nb) + 1]), Val(b[bo..bo + nb])) + Val(a[ao..ao + nb]) == t
    ensures Val(a[ao..ao + nb]) < Val(b[bo..bo + nb])
    ensures Untouched(q, qo, qo + (na - nb) + 1) && Untouched(a, ao, ao + na)
  {
    hide Mul, Val, Pow;
    var nq := na - nb;
    ghost var d := Val(b[bo..bo + nb]);
    NormalizedHalf(b[bo..bo + nb]);
    while true
      invariant Mul(Val(q[qo..qo + nq + 1]), d) + Val(a[ao..ao + nb + 1]) == t
      invariant Untouched(q, qo, qo + nq + 1) && Untouched(a, ao, ao + na)
      decreases Val(a[ao..ao + nb + 1])
    {
      ghost var L, top := a[ao..ao + nb], a[ao + nb];
      assert a[ao..ao + nb + 1] == L + [top];
      ValSnoc(L, top);
      ValBound(L);
      var cmp := MpCmp(a, ao, b, bo, nb);
      if a[ao + nb] == 0 && cmp < 0 {
        MulUnit(Pow(nb));
        return;
      }
      ghost var w, vq := Val(a[ao..ao + nb + 1]), Val(q[qo..qo + nq + 1]);
      AtLeastDivisor(Val(L), top, Pow(nb), d);
      var c := MpSub(a, ao, a, ao, b, bo, nb, 0);
      ghost var L' := a[ao..ao + nb];
      ValBound(L');
      TopAfterBorrow(Val(L), top, Val(L'), c, d, Pow(nb));
      a[ao + nb] := (a[ao + nb] - c) % BASE;
      assert a[ao..ao + nb + 1] == L' + [top - c];
      ValSnoc(L', top - c);
      var k := MpAddUi(q, qo, 1, nq + 1);
      QuotientRoom(t, vq, d, Val(q[qo..qo + nq + 1]), k, w, na, nb);
    }
  }

  lemma AtLeastDivisor(l: int, top: int, p: int, d: int)
    requires 0 <= l && 0 <= top && d < p && 0 < p
    requires top != 0 || l >= d
    ensures l + Mul(top, p) >= d
  {
    if top >= 1 {
      MulMono(1, top, p);
    } else {
      assert Mul(top, p) == 0;
    }
  }

  lemma TopAfterBorrow(l: int, top: int, l': int, c: int, d: int, p: int)
    requires l' - Mul(c, p) == l - d && 0 <= c <= 1 && 0 <= l' < p && 0 < p && 0 <= top
    requires l + Mul(top, p) >= d
    ensures top >= c && l' + Mul(top - c, p) == l + Mul(top, p) - d
  {
    MulDist(top, c, p);
    if top < c {
      MulMono(top - c, -1, p);
    }
  }

  lemma QuotientRoom(t: int, vq: int, d: int, vq': nat, k: nat, w: int, na: nat, nb: nat)
    requires na > nb && 0 < d && Pow(nb) <= 2 * d && 0 <= t < Pow(na) && w >= d
    requires Mul(vq, d) + w == t && vq' + Mul(k, Pow(na - nb + 1)) == vq + 1
    ensures Mul(vq', d) + (w - d) == t
  {
    hide Pow;
    PowAdd(na - nb, nb);
    PowNext(na - nb);
    MulDist(vq, 1, d);
    QuotientRoomArith(t, vq + 1, d, vq', k, w - d, Pow(na - nb), Pow(nb));
  }

  lemma QuotientRoomArith(t: int, v: int, d: int, v': nat, k: nat, w: int, p: int, pb: int)
    requires 0 < d && 0 < p && 0 < pb <= 2 * d && 0 <= t < Mul(p, pb) && w >= 0
    requires Mul(v, d) + w == t && v' + Mul(k, p * BASE) == v
    ensures k == 0 && v == v'
  {
    if k >= 1 {
      MulMono(1, k, p * BASE);
      MulMono(2 * p, v, d);
      MulMono(pb, 2 * d, p);
      assert false;
    }
  }
}
