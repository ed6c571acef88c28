/** The inverse transform: evaluating the transform at the powers of the root gives the coefficients back,
    times the length. No field is needed: a root whose half power is -1 suffices. */
module NttInverse {
  import opened Limbs
  import opened Congruence
  import opened NttStage

  ghost function Ones(n: nat): (s: seq<int>)
    ensures |s| == n
  {
    seq(n, i => 1)
  }

  lemma {:induction false} OnesAtOne(n: nat, y: int, m: int)
    requires Cong(y, 1, m)
    ensures Cong(Eval(Ones(n), y), n, m)
  {
    if n == 0 {
      assert Ones(0) == [];
    } else {
      assert Ones(n)[1..] == Ones(n - 1);
      OnesAtOne(n - 1, y, m);
      var e := Eval(Ones(n - 1), y);
      CongMul(y, 1, e, n - 1, m);
      CongAdd(1, 1, y * e, n - 1, m);
    }
  }

  lemma OnesTwice(H: nat, y: int)
    ensures Eval(Ones(2 * H), y) == (1 + Power(y, H)) * Eval(Ones(H), y)
  {
    assert Ones(2 * H) == Ones(H) + Ones(H);
    EvalConcat(Ones(H), Ones(H), y);
    MulDist(1, Power(y, H), Eval(Ones(H), y));
  }

  /** A geometric sum over all powers of a root vanishes, unless every term is one. */
  lemma {:induction false} GeometricZero(w: int, e: nat, L: nat, m: int)
    requires L >= 1 && Cong(Power(w, P2(L - 1)), -1, m) && e % P2(L) != 0
    ensures Cong(Eval(Ones(P2(L)), Power(w, e)), 0, m)
    decreases L
  {
    var H := P2(L - 1);
    var y := Power(w, e);
    assert P2(L) == 2 * H;
    OnesTwice(H, y);
    PowerSwap(w, e, H);
    PowerCong(Power(w, H), -1, e, m);
    PowerMinusOne(e / 2);
    var s := Eval(Ones(H), y);
    if e % 2 == 1 {
      assert e == 2 * (e / 2) + 1;
      CongAdd(1, 1, Power(y, H), -1, m);
      CongMul(1 + Power(y, H), 0, s, s, m);
    } else {
      var h := e / 2;
      assert e == 2 * h;
      EvenExponent(h, H);
      PowerMul(w, 2, h);
      assert Power(w, 2) == w * (w * Power(w, 0)) == w * w;
      PowerMul(w, 2, P2(L - 2));
      assert H == 2 * P2(L - 2);
      GeometricZero(Power(w, 2), h, L - 1, m);
      CongMul(s, 0, 1 + Power(y, H), 1 + Power(y, H), m);
      assert s * (1 + Power(y, H)) == (1 + Power(y, H)) * s;
    }
  }

  lemma EvenExponent(h: nat, H: nat)
    requires H >= 1 && (2 * h) % (2 * H) != 0
    ensures h % H != 0 && H > 1
  {
    if h % H == 0 {
      var q := h / H;
      assert 2 * h == q * (2 * H) + 0;
      DivModUnique(2 * h, 2 * H, q, 0);
    }
  }

  /** w and v are inverse roots of order 2^L. */
  ghost predicate InverseRoots(w: int, v: int, L: nat, m: int) {
    && L >= 1 && m > 0 && Cong(w * v, 1, m)
    && Cong(Power(w, P2(L - 1)), -1, m) && Cong(Power(v, P2(L - 1)), -1, m)
  }

  lemma FullTurn(w: int, L: nat, m: int)
    requires L >= 1 && Cong(Power(w, P2(L - 1)), -1, m)
    ensures Cong(Power(w, P2(L)), 1, m)
  {
    var h := P2(L - 1);
    assert P2(L) == h + h;
    PowerAdd(w, h, h);
    CongMul(Power(w, h), -1, Power(w, h), -1, m);
  }

  /** v^k * w^r as one power of w. */
  lemma MixedPower(w: int, v: int, L: nat, k: nat, r: nat, m: int)
    requires InverseRoots(w, v, L, m) && k < P2(L)
    ensures Cong(Power(v, k) * Power(w, r), Power(w, P2(L) - k + r), m)
  {
    hide Power, P2, Cong;
    var n := P2(L);
    FullTurn(w, L, m);
    PowerAdd(w, n - k, k);
    PowerAdd(w, n - k, r);
    PowerBase(w, v, k);
    PowerCong(w * v, 1, k, m);
    PowerOne(k);
    InverseFactor(Power(w, n - k), Power(w, k), Power(v, k), Power(w, r), m);
  }

  /** x and a are both inverse to y. */
  lemma InverseFactor(x: int, y: int, a: int, b: int, m: int)
    requires Cong(x * y, 1, m) && Cong(y * a, 1, m)
    ensures Cong(a * b, x * b, m)
  {
    hide Cong;
    CongPositive(x * y, 1, m);
    CongRefl(a, m);
    CongRefl(x, m);
    CongRefl(b, m);
    CongMul(x * y, 1, a, a, m);
    CongMul(y * a, 1, x, x, m);
    assert x * y * a == y * a * x;
    SameTwice(x * y * a, a, x, m);
    CongMul(a, x, b, b, m);
  }

  lemma SameTwice(c: int, a: int, x: int, m: int)
    requires Cong(c, 1 * a, m) && Cong(c, 1 * x, m)
    ensures Cong(a, x, m)
  {}

  /** The geometric sum for v^k * w^r: the length when k == r, and otherwise nothing. */
  lemma Orthogonal(w: int, v: int, L: nat, k: nat, r: nat, m: int)
    requires InverseRoots(w, v, L, m) && k < P2(L) && r < P2(L)
    ensures Cong(Eval(Ones(P2(L)), Power(v, k) * Power(w, r)), if k == r then P2(L) else 0, m)
  {
    var n := P2(L);
    var y := Power(v, k) * Power(w, r);
    if k == r {
      PowerBase(v, w, k);
      assert v * w == w * v;
      PowerCong(w * v, 1, k, m);
      PowerOne(k);
      OnesAtOne(n, y, m);
    } else {
      var e := n - k + r;
      MixedPower(w, v, L, k, r, m);
      Wrapped(e, n, k, r);
      GeometricZero(w, e, L, m);
      EachSelf(n, m);
      EvalCong(Ones(n), Ones(n), y, Power(w, e), m);
    }
  }

  lemma Wrapped(e: nat, n: nat, k: nat, r: nat)
    requires k < n && r < n && k != r && e == n - k + r
    ensures e % n != 0
  {
    if r > k {
      DivModUnique(e, n, 1, r - k);
    } else {
      DivModUnique(e, n, 0, e);
    }
  }

  lemma EachSelf(n: nat, m: int)
    requires m > 0
    ensures CongEach(Ones(n), Ones(n), m)
  {}

  /** The values of a prefix of z at the powers of v. */
  ghost function Values(z: seq<int>, v: int, n: nat): (u: seq<int>)
    ensures |u| == n
  {
    seq(n, i requires 0 <= i < n => Eval(z, Power(v, i)))
  }

  lemma ValuesSnoc(z: seq<int>, x: int, v: int, n: nat, y: int)
    ensures Eval(Values(z + [x], v, n), y) == Eval(Values(z, v, n), y) + x * Eval(Ones(n), Power(v, |z|) * y)
  {
    var g := Power(v, |z|);
    var c := seq(n, i requires 0 <= i < n => Ones(n)[i] * (1 * Power(g, i)));
    forall i | 0 <= i < n
      ensures Values(z + [x], v, n)[i] == Values(z, v, n)[i] + x * c[i]
    {
      EvalConcat(z, [x], Power(v, i));
      EvalOne(x, Power(v, i));
      PowerSwap(v, i, |z|);
      assert Power(Power(v, i), |z|) * x == x * Power(g, i);
    }
    EvalLinear(Values(z, v, n), c, Values(z + [x], v, n), x, y);
    EvalScale(Ones(n), c, g, y, 1);
  }

  lemma {:induction false} ValuesPrefix(z: seq<int>, w: int, v: int, L: nat, r: nat, k: nat, m: int)
    requires InverseRoots(w, v, L, m) && |z| == P2(L) && r < P2(L) && k <= P2(L)
    ensures Cong(Eval(Values(z[..k], v, P2(L)), Power(w, r)), if r < k then P2(L) * z[r] else 0, m)
    decreases k
  {
    hide Cong, Power, P2, InverseRoots;
    var n, y := P2(L), Power(w, r);
    if k == 0 {
      ValuesNone(v, n, y, m, w, L);
      assert z[..0] == [];
    } else {
      var x := z[k - 1];
      assert z[..k] == z[..k - 1] + [x];
      ValuesPrefix(z, w, v, L, r, k - 1, m);
      ValuesSnoc(z[..k - 1], x, v, n, y);
      Orthogonal(w, v, L, k - 1, r, m);
      var s, g := Eval(Values(z[..k - 1], v, n), y), Eval(Ones(n), Power(v, k - 1) * y);
      TermAdds(s, x, g, n, k - 1 == r, if r < k - 1 then n * z[r] else 0, m);
    }
  }

  lemma TermAdds(s: int, x: int, g: int, n: int, here: bool, before: int, m: int)
    requires Cong(s, before, m) && Cong(g, if here then n else 0, m) && (here ==> before == 0)
    ensures Cong(s + x * g, if here then n * x else before, m)
  {
    CongMul(x, x, g, if here then n else 0, m);
    CongAdd(s, before, x * g, x * (if here then n else 0), m);
  }

  lemma {:induction false} ValuesNone(v: int, n: nat, y: int, m: int, w: int, L: nat)
    requires InverseRoots(w, v, L, m)
    ensures Cong(Eval(Values([], v, n), y), 0, m)
    decreases n
  {
    if n > 0 {
      ZeroValues(n);
      ZeroEval(n, y);
      assert Values([], v, n) == seq(n, i => 0);
    }
  }

  lemma ZeroValues(n: nat)
    ensures |seq(n, i => 0)| == n
  {}

  lemma {:induction false} ZeroEval(n: nat, y: int)
    ensures Eval(seq(n, i => 0), y) == 0
  {
    if n > 0 {
      assert seq(n, i => 0)[1..] == seq(n - 1, i => 0);
      ZeroEval(n - 1, y);
    }
  }

  /** The inversion theorem: values of the values are the coefficients, times the length. */
  lemma Inversion(z: seq<int>, u: seq<int>, w: int, v: int, L: nat, r: nat, m: int)
    requires InverseRoots(w, v, L, m) && |z| == |u| == P2(L) && r < P2(L)
    requires forall i: nat | i < |u| :: Cong(u[i], Eval(z, Power(v, i)), m)
    ensures Cong(Eval(u, Power(w, r)), P2(L) * z[r], m)
  {
    hide Power, P2;
    ValuesPrefix(z, w, v, L, r, |z|, m);
    assert z[..|z|] == z;
    assert CongEach(u, Values(z, v, |u|), m);
    EvalCong(u, Values(z, v, |u|), Power(w, r), Power(w, r), m);
  }

  /** Polynomials with the same values at the powers of a root have the same coefficients. */
  lemma SameCoefficients(c: seq<int>, d: seq<int>, w: int, v: int, L: nat, inv: int, r: nat, m: int)
    requires InverseRoots(w, v, L, m) && |c| == |d| == P2(L) && r < P2(L) && Cong(P2(L) * inv, 1, m)
    requires forall i: nat | i < P2(L) :: Cong(Eval(c, Power(w, i)), Eval(d, Power(w, i)), m)
    ensures Cong(c[r], d[r], m)
  {
    hide Power, P2, Eval;
    var u := Values(c, w, P2(L));
    assert v * w == w * v;
    assert InverseRoots(v, w, L, m);
    Inversion(c, u, v, w, L, r, m);
    Inversion(d, u, v, w, L, r, m);
    CongCancel(P2(L), inv, c[r], d[r], m);
  }
}
