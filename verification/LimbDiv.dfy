/** Division of a double limb by a normalized limb with a precomputed inverse, and division of a
    limb array by one limb (libbf.c udiv1norm_init, udiv1norm, mp_div1norm). */
module LimbDiv {
  import opened Limbs
  import opened LimbArith

  /** inv is floor((BASE^2 - 1) / d) - BASE. */
  ghost predicate IsInverse(inv: int, d: int) {
    BASE * BASE - d <= Mul(BASE + inv, d) < BASE * BASE
  }

  /** libbf.c udiv1norm_init. */
  method Udiv1NormInit(d: limb) returns (inv: limb)
    requires d >= HALF
    ensures IsInverse(inv, d)
  {
    var a1 := (0 - d - 1) % BASE;
    var a := a1 * BASE + (BASE - 1);
    var i := a / d;
    InverseBound(d, i);
    inv := i;
  }

  lemma InverseBound(d: limb, i: int)
    requires d >= HALF && i == ((BASE - 1 - d) * BASE + (BASE - 1)) / d
    ensures 0 <= i < BASE && IsInverse(i, d)
  {
    var n := (BASE - 1 - d) * BASE + (BASE - 1);
    var m := n % d;
    assert n == i * d + m;
    MulDist(BASE, i, d);
    if i >= BASE {
      MulMono(BASE, i, d);
    }
    if i < 0 {
      MulMono(i, -1, d);
    }
  }

  /** The estimate of udiv1norm: the quotient is the estimate or one more. */
  ghost function Estimate(a1: int, a0: int, d: int, inv: int): int {
    if a0 < HALF then a1 + (Mul(inv, a1) + a0) / BASE
    else a1 + (Mul(inv, a1 + 1) + (a0 + d - BASE)) / BASE
  }

  /** The error of the estimate for a0 < HALF. */
  lemma EstimateErrorLow(n: int, d: int, r: int, k: int, x: int, a1: int, a0: int)
    requires r * d == BASE * BASE - k && x == r * a1 + a0 && n == a1 * BASE + a0
    ensures n * BASE - x * d == a1 * k + a0 * (BASE - d)
  {
    assert x * d == a1 * (r * d) + a0 * d by {
      MulDist(r * a1, a0, d);
      assert r * a1 * d == a1 * (r * d);
    }
    assert a1 * (BASE * BASE - k) == a1 * BASE * BASE - a1 * k by { MulDist(BASE * BASE, k, a1); }
    assert a0 * (BASE - d) == a0 * BASE - a0 * d by { MulDist(BASE, d, a0); }
  }

  lemma EstimateLow(a1: int, a0: int, d: int, inv: int, k: int, x: int)
    requires HALF <= d < BASE && 0 <= a1 < d && 0 <= a0 < HALF
    requires (BASE + inv) * d == BASE * BASE - k && 1 <= k <= d
    requires x == (BASE + inv) * a1 + a0
    ensures 0 <= (a1 * BASE + a0) * BASE - x * d < d * BASE
  {
    EstimateErrorLow(a1 * BASE + a0, d, BASE + inv, k, x, a1, a0);
    LowGap(a1, a0, d, BASE - d, k);
  }

  lemma LowGap(a1: int, a0: int, d: int, e: int, k: int)
    requires 0 <= a1 < d && 0 <= a0 < HALF <= d && 1 <= k <= d && e >= 1
    ensures 0 <= a1 * k + a0 * e < d * (d + e)
  {
    MulMono(0, a1, k);
    MulMono(0, a0, e);
    MulMono(a1, d - 1, k);
    MulMono(k, d, d - 1);
    MulMono(a0, d, e);
    MulDist(d, e, d);
    MulDist(d, 1, d);
  }

  /** The error of the estimate for a0 >= HALF, with e = BASE - d, b = a1 + 1, y = a0 - e. */
  lemma EstimateError(n: int, d: int, r: int, k: int, x: int, b: int, y: int)
    requires r * d == BASE * BASE - k && x == r * b + (y - BASE)
    requires n == (b - 1) * BASE + y + (BASE - d)
    ensures n * BASE - x * d == b * k + (BASE - d) * y
  {
    assert x * d == b * (r * d) + (y - BASE) * d by {
      MulDist(r * b, y - BASE, d);
      assert r * b * d == b * (r * d);
    }
    assert b * (BASE * BASE - k) == b * BASE * BASE - b * k by { MulDist(BASE * BASE, k, b); }
    assert (y - BASE) * d == y * d - BASE * d by { MulDist(y, BASE, d); }
    assert (BASE - d) * y == BASE * y - d * y by { MulDist(BASE, d, y); }
  }

  lemma ErrorBounds(d: int, e: int, k: int, b: int, y: int)
    requires 1 <= k <= d && 1 <= b <= d && 0 <= y < d && e == BASE - d && 1 <= e <= d
    ensures 0 <= b * k + e * y < d * BASE
  {
    MulMono(0, b, k);
    MulMono(0, e, y);
    MulMono(b, d, k);
    assert d * k <= d * d by { MulMono(k, d, d); }
    assert e * y <= e * (d - 1) by { MulMono(y, d - 1, e); }
    assert e * (d - 1) == e * d - e by { MulDist(d, 1, e); }
    assert d * BASE == d * d + d * e by { MulDist(d, e, d); }
    assert d * e == e * d;
  }

  lemma EstimateHigh(a1: int, a0: int, d: int, inv: int, k: int, x: int)
    requires HALF <= d < BASE && 0 <= a1 < d && HALF <= a0 < BASE
    requires (BASE + inv) * d == BASE * BASE - k && 1 <= k <= d
    requires x == (BASE + inv) * (a1 + 1) + a0 + d - 2 * BASE
    ensures 0 <= (a1 * BASE + a0) * BASE - x * d < d * BASE
  {
    var e, b := BASE - d, a1 + 1;
    var y := a0 - e;
    EstimateError(a1 * BASE + a0, d, BASE + inv, k, x, b, y);
    ErrorBounds(d, e, k, b, y);
  }

  /** Flooring an approximation that is at most one below the quotient costs at most one more. */
  lemma FloorStep(n: int, d: int, x: int, q1: int)
    requires d > 0 && q1 == x / BASE
    requires 0 <= n * BASE - x * d < d * BASE
    ensures 0 <= n - q1 * d < 2 * d
  {
    var m := x % BASE;
    assert x == q1 * BASE + m;
    MulDist(q1 * BASE, m, d);
    assert q1 * BASE * d == (q1 * d) * BASE;
    MulMono(0, m, d);
    MulMono(m, BASE - 1, d);
  }

  lemma EstimateExact(a1: limb, a0: limb, d: limb, inv: limb)
    requires HALF <= d && a1 < d && IsInverse(inv, d)
    ensures 0 <= (a1 * BASE + a0) - Mul(Estimate(a1, a0, d, inv), d) < 2 * d
    ensures 0 <= Estimate(a1, a0, d, inv) < BASE
  {
    MulMono(0, inv, a1);
    MulMono(0, inv, a1 + 1);
    var q := Estimate(a1, a0, d, inv);
    var k := BASE * BASE - (BASE + inv) * d;
    if a0 < HALF {
      var x := (BASE + inv) * a1 + a0;
      MulDist(BASE, inv, a1);
      assert x == a1 * BASE + (inv * a1 + a0);
      DivAdd(inv * a1 + a0, a1);
      EstimateLow(a1, a0, d, inv, k, x);
      FloorStep(a1 * BASE + a0, d, x, q);
    } else {
      var x := (BASE + inv) * (a1 + 1) + a0 + d - 2 * BASE;
      MulDist(BASE, inv, a1 + 1);
      DivAdd(inv * (a1 + 1) + (a0 + d - BASE), a1);
      EstimateHigh(a1, a0, d, inv, k, x);
      FloorStep(a1 * BASE + a0, d, x, q);
    }
    if q >= BASE {
      MulMono(BASE, q, d);
    }
  }

  lemma DivAdd(y: int, a: int)
    ensures (a * BASE + y) / BASE == a + y / BASE
  {}

  /** libbf.c udiv1norm: quotient and remainder of a1 * BASE + a0 by d. The masks -1 and 0 are the
      sign of a0 and the borrow of the trial remainder. */
  method Udiv1Norm(a1: limb, a0: limb, d: limb, inv: limb) returns (q: limb, r: limb)
    requires d >= HALF && a1 < d && IsInverse(inv, d)
    ensures Mul(q, d) + r == a1 * BASE + a0 && r < d
  {
    hide Mul;
    var neg := a0 >= HALF;
    var nAdj := (a0 + (if neg then d else 0)) % BASE;
    var m := (a1 + (if neg then 1 else 0)) % BASE;
    var q1 := ((Mul(inv, m) + nAdj) / BASE + a1) % BASE;
    EstimateWraps(a1, a0, d, inv, Mul(inv, m), q1);
    var rem := (a1 * BASE + a0 - Mul(q1, d) - d) % DOUBLE_BASE;
    var ah := rem / BASE;
    q := (q1 + 1 + ah) % BASE;
    r := (rem % BASE + (if ah == BASE - 1 then d else 0)) % BASE;
    CorrectOnce(a1, a1 * BASE + a0, q1, d, rem, q, r);
  }

  /** The masked and wrapped arithmetic of udiv1norm computes the estimate. */
  lemma EstimateWraps(a1: limb, a0: limb, d: limb, inv: limb, p: int, q1: limb)
    requires HALF <= d && a1 < d && IsInverse(inv, d)
    requires a0 < HALF ==> p == Mul(inv, a1)
    requires a0 >= HALF ==> p == Mul(inv, a1 + 1)
    requires q1 == ((p + (a0 + (if a0 >= HALF then d else 0)) % BASE) / BASE + a1) % BASE
    ensures 0 <= (a1 * BASE + a0) - Mul(q1, d) < 2 * d
  {
    hide Mul;
    EstimateExact(a1, a0, d, inv);
  }

  /** The trial remainder for q1 + 1 is either already right or exactly one d too small. */
  lemma CorrectOnce(a1: limb, n: int, q1: limb, d: limb, rem: int, q: limb, r: limb)
    requires HALF <= d && a1 < d && a1 * BASE <= n < a1 * BASE + BASE
    requires 0 <= n - Mul(q1, d) < 2 * d
    requires rem == (n - Mul(q1, d) - d) % DOUBLE_BASE
    requires q == (q1 + 1 + rem / BASE) % BASE
    requires r == (rem % BASE + (if rem / BASE == BASE - 1 then d else 0)) % BASE
    ensures Mul(q, d) + r == n && r < d
  {
    var x := n - q1 * d - d;
    TrialRemainder(x, d, rem);
    if x < 0 {
      assert q == q1 && r == x + d;
    } else {
      if q1 + 1 >= BASE {
        MulMono(BASE, q1 + 1, d);
        MulDist(q1, 1, d);
        assert false;
      }
      assert q == q1 + 1 && r == x;
      MulDist(q1, 1, d);
    }
  }

  lemma TrialRemainder(x: int, d: limb, rem: int)
    requires 0 - d <= x < d && rem == x % DOUBLE_BASE
    ensures rem / BASE == (if x < 0 then BASE - 1 else 0)
    ensures rem % BASE == (if x < 0 then x + BASE else x)
  {
    if x < 0 {
      assert rem == x + DOUBLE_BASE;
      DivModUnique(rem, BASE, BASE - 1, x + BASE);
    }
  }

  /** libbf.c mp_div1norm: divides by one normalized limb, from the top limb down; uses the inverse
      from three limbs on. */
  method MpDiv1Norm(res: array<limb>, ro: nat, a: array<limb>, ao: nat, n: nat, b: limb, r0: limb) returns (r: limb)
    requires ro + n <= res.Length && ao + n <= a.Length
    requires Separate(res, ro, a, ao, n)
    requires b >= HALF && r0 < b
    modifies res
    ensures r < b
    ensures Mul(Val(res[ro..ro + n]), b) + r == old(Val(a[ao..ao + n])) + Mul(r0, Pow(n))
    ensures Untouched(res, ro, ro + n)
  {
    hide Mul, Val, Pow;
    ghost var A := a[ao..ao + n];
    ghost var Q: seq<limb> := [];
    r := r0;
    var inv: limb := 0;
    if n >= 3 {
      inv := Udiv1NormInit(b);
    }
    ShiftStart(r0, b, A);
    var i := n;
    while i > 0
      invariant 0 <= i <= n && r < b
      invariant forall j :: ao <= j < ao + i ==> a[j] == A[j - ao]
      invariant |Q| == n - i && forall j :: ro + i <= j < ro + n ==> res[j] == Q[j - ro - i]
      invariant Mul(Val(Q), b) + r == Val(A[i..]) + Mul(r0, Pow(n - i))
      invariant Untouched(res, ro + i, ro + n)
    {
      i := i - 1;
      var v := a[ao + i];
      var q, r' := DivLimb(r, v, b, inv, n >= 3);
      ShortDivStep(Q, A[i + 1..], v, q, r, r', b, r0);
      assert A[i..] == [v] + A[i + 1..];
      res[ro + i] := q;
      Q := [q] + Q;
      r := r';
    }
    assert A[0..] == A;
    forall j | 0 <= j < n
      ensures res[ro..ro + n][j] == Q[j]
    {
      assert res[ro + j] == Q[ro + j - ro - i];
    }
    assert res[ro..ro + n] == Q;
  }

  /** One quotient limb, with or without the inverse. */
  method DivLimb(a1: limb, a0: limb, b: limb, inv: limb, useInverse: bool) returns (q: limb, r: limb)
    requires b >= HALF && a1 < b
    requires useInverse ==> IsInverse(inv, b)
    ensures Mul(q, b) + r == a1 * BASE + a0 && r < b
  {
    if useInverse {
      q, r := Udiv1Norm(a1, a0, b, inv);
    } else {
      var t := a1 * BASE + a0;
      QuotientFits(a1, a0, b);
      q := t / b;
      r := t % b;
    }
  }

  lemma QuotientFits(a1: int, a0: limb, b: int)
    requires 0 <= a1 < b
    ensures 0 <= (a1 * BASE + a0) / b < BASE
    ensures ((a1 * BASE + a0) / b) * b + (a1 * BASE + a0) % b == a1 * BASE + a0
  {
    var q := (a1 * BASE + a0) / b;
    assert (a1 * BASE + a0) == q * b + (a1 * BASE + a0) % b;
    if q >= BASE {
      MulMono(BASE, q, b);
    }
    if q < 0 {
      MulMono(q, -1, b);
    }
  }

  lemma ShortDivStep(Q: seq<limb>, A: seq<limb>, v: limb, q: limb, r: int, r': int, b: int, r0: int)
    requires |Q| == |A|
    requires Mul(Val(Q), b) + r == Val(A) + Mul(r0, Pow(|A|))
    requires Mul(q, b) + r' == r * BASE + v
    ensures Mul(Val([q] + Q), b) + r' == Val([v] + A) + Mul(r0, Pow(|A| + 1))
  {
    ValCons(q, Q);
    ValCons(v, A);
    ShortDivArith(Val(Q), Val(A), Val([q] + Q), q, v, r, r', b, r0, Pow(|A|), Pow(|A| + 1));
  }

  lemma ShortDivArith(vq: int, va: int, vq': int, q: int, v: int, r: int, r': int, b: int, r0: int, p: int, p': int)
    requires vq * b + r == va + r0 * p
    requires q * b + r' == r * BASE + v
    requires vq' == q + BASE * vq && p' == p * BASE
    ensures vq' * b + r' == v + BASE * va + r0 * p'
  {
    MulDist(q, BASE * vq, b);
    assert BASE * vq * b == BASE * (vq * b);
    assert r0 * p' == BASE * (r0 * p);
  }
}
