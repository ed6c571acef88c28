/** The cyclic convolution of coefficient lists: what a pointwise product of transforms computes, and when
    it is the plain product of the polynomials. */
module NttCyclic {
  import opened Limbs
  import opened Congruence
  import opened NttInverse
  import opened NttRows

  /** The index before r, modulo n. */
  function Before(r: nat, n: nat): (p: nat)
    requires r < n
    ensures p < n
  {
    if r == 0 then n - 1 else r - 1
  }

  /** The sum of all a[i] * b[r - i], the second index taken modulo |b|. */
  ghost function CyclicAt(a: seq<int>, b: seq<int>, r: nat): int
    requires r < |b|
    decreases |a|
  {
    if a == [] then 0 else a[0] * b[r] + CyclicAt(a[1..], b, Before(r, |b|))
  }

  ghost function Cyclic(a: seq<int>, b: seq<int>): (c: seq<int>)
    ensures |c| == |b|
  {
    seq(|b|, r requires 0 <= r < |b| => CyclicAt(a, b, r))
  }

  /** c moved up by one place, the last coefficient to the front. */
  ghost function Rotated(c: seq<int>): (t: seq<int>)
    requires c != []
    ensures |t| == |c|
  {
    [c[|c| - 1]] + c[..|c| - 1]
  }

  lemma RotatedEval(c: seq<int>, y: int)
    requires c != []
    ensures Eval(Rotated(c), y) == y * Eval(c, y) - c[|c| - 1] * (Power(y, |c|) - 1)
  {
    hide Eval, Power;
    SplitLast(c);
    RotatedParts(c[..|c| - 1], c[|c| - 1], y);
  }

  lemma SplitLast<T>(c: seq<T>)
    requires c != []
    ensures c[..|c| - 1] + [c[|c| - 1]] == c
  {}

  lemma RotatedParts(d: seq<int>, x: int, y: int)
    ensures Eval([x] + d, y) == y * Eval(d + [x], y) - x * (Power(y, |d| + 1) - 1)
  {
    hide Eval, Power;
    LastEval(d, x, y);
    FirstEval(d, x, y);
    PowerUp(y, |d|);
    RotatedArith(Eval(d, y), Power(y, |d|), x, y);
  }

  lemma LastEval(d: seq<int>, x: int, y: int)
    ensures Eval(d + [x], y) == Eval(d, y) + Power(y, |d|) * x
  {
    EvalConcat(d, [x], y);
    EvalOne(x, y);
  }

  lemma FirstEval(d: seq<int>, x: int, y: int)
    ensures Eval([x] + d, y) == x + y * Eval(d, y)
  {
    assert ([x] + d)[1..] == d;
  }

  lemma PowerUp(y: int, n: nat)
    ensures Power(y, n + 1) == y * Power(y, n)
  {}

  lemma RotatedArith(e: int, p: int, x: int, y: int)
    ensures x + y * e == y * (e + p * x) - x * (y * p - 1)
  {
    MulDist(e, p * x, y);
    MulDist(y * p, 1, x);
    assert y * (p * x) == x * (y * p);
  }

  lemma CyclicStep(a: seq<int>, b: seq<int>, y: int)
    requires a != [] && b != []
    ensures Eval(Cyclic(a, b), y) == Eval(Rotated(Cyclic(a[1..], b)), y) + a[0] * Eval(b, y)
  {
    var c, t := Cyclic(a, b), Rotated(Cyclic(a[1..], b));
    forall r | 0 <= r < |b|
      ensures c[r] == t[r] + a[0] * b[r]
    {
      assert t[r] == Cyclic(a[1..], b)[Before(r, |b|)];
    }
    EvalLinear(t, b, c, a[0], y);
  }

  lemma NothingEval(b: seq<int>, y: int)
    ensures Eval(Cyclic([], b), y) == 0
  {
    ZeroEval(|b|, y);
    assert Cyclic([], b) == seq(|b|, i => 0);
  }

  /** At a point whose |b|-th power is one, the convolution has the product of the values. */
  lemma {:induction false} CyclicValue(a: seq<int>, b: seq<int>, y: int, m: int)
    requires b != [] && Cong(Power(y, |b|), 1, m)
    ensures Cong(Eval(Cyclic(a, b), y), Eval(a, y) * Eval(b, y), m)
    decreases |a|
  {
    hide Cong, Cyclic;
    CongPositive(Power(y, |b|), 1, m);
    if a == [] {
      NothingEval(b, y);
      CongRefl(0, m);
    } else {
      var c := Cyclic(a[1..], b);
      CyclicValue(a[1..], b, y, m);
      CyclicStep(a, b, y);
      RotatedEval(c, y);
      CyclicArith(Eval(c, y), Eval(a[1..], y), Eval(b, y), a[0], y, c[|c| - 1], Power(y, |b|), m);
    }
  }

  lemma CyclicArith(ec: int, ea: int, eb: int, a0: int, y: int, x: int, p: int, m: int)
    requires Cong(ec, ea * eb, m) && Cong(p, 1, m)
    ensures Cong(y * ec - x * (p - 1) + a0 * eb, (a0 + y * ea) * eb, m)
  {
    CongPositive(p, 1, m);
    CongRefl(1, m);
    CongRefl(y, m);
    CongRefl(x, m);
    CongRefl(a0 * eb, m);
    CongAdd(p, 1, 1, 1, m);
    CongMul(x, x, p - 1, 0, m);
    CongMul(y, y, ec, ea * eb, m);
    CongAdd(y * ec, y * (ea * eb), x * (p - 1), x * 0, m);
    CongAdd(y * ec - x * (p - 1), y * (ea * eb) - x * 0, a0 * eb, a0 * eb, m);
    MulDist(a0, y * ea, eb);
    assert y * (ea * eb) == y * ea * eb;
  }

  /** Coefficients whose values at the powers of the root are the scaled products are the scaled cyclic
      convolution. */
  lemma ConvCoefficient(a: seq<int>, b: seq<int>, c: seq<int>, w: int, v: int, L: nat, inv: int, s: int, r: nat, m: int)
    requires InverseRoots(w, v, L, m) && |b| == |c| == P2(L) && r < P2(L) && Cong(P2(L) * inv, 1, m)
    requires ConvOk(a, b, c, w, P2(L), s, m)
    ensures Cong(c[r], s * Cyclic(a, b)[r], m)
  {
    hide Power, P2, Eval, Cyclic, Cong;
    var d := ScaledBy(Cyclic(a, b), s);
    forall i: nat | i < P2(L)
      ensures Cong(Eval(c, Power(w, i)), Eval(d, Power(w, i)), m)
    {
      assert ConvAt(a, b, c, Power(w, i), s, m);
      FullTurn(w, L, m);
      UnityPower(w, i, P2(L), m);
      CyclicValue(a, b, Power(w, i), m);
      ScaledByEval(Cyclic(a, b), s, Power(w, i));
      ScaledCong(Eval(c, Power(w, i)), Eval(Cyclic(a, b), Power(w, i)), Eval(a, Power(w, i)) * Eval(b, Power(w, i)), s,
                 m);
    }
    SameCoefficients(c, d, w, v, L, inv, r, m);
  }

  ghost function ScaledBy(c: seq<int>, s: int): (t: seq<int>)
    ensures |t| == |c|
  {
    seq(|c|, i requires 0 <= i < |c| => s * c[i])
  }

  lemma ScaledByEval(c: seq<int>, s: int, y: int)
    ensures Eval(ScaledBy(c, s), y) == s * Eval(c, y)
  {
    var z := seq(|c|, i => 0);
    ZeroEval(|c|, y);
    EvalLinear(z, c, ScaledBy(c, s), s, y);
  }

  lemma ScaledCong(x: int, e: int, p: int, s: int, m: int)
    requires Cong(x, s * p, m) && Cong(e, p, m)
    ensures Cong(x, s * e, m)
  {
    CongPositive(e, p, m);
    CongMul(s, s, e, p, m);
  }

  // No wrap.

  ghost predicate ZeroFrom(a: seq<int>, n: nat) {
    forall i :: n <= i < |a| ==> a[i] == 0
  }

  /** Above the sum of the degrees there is nothing. */
  lemma {:induction false} CyclicAbove(a: seq<int>, b: seq<int>, na: nat, nb: nat, r: nat)
    requires ZeroFrom(a, na) && ZeroFrom(b, nb) && r < |b| && nb >= 1 && (na == 0 || r >= na - 1 + nb)
    ensures CyclicAt(a, b, r) == 0
    decreases |a|
  {
    if a != [] {
      if na == 0 {
        assert ZeroFrom(a[1..], 0);
        CyclicAbove(a[1..], b, 0, nb, Before(r, |b|));
        assert a[0] == 0;
      } else {
        assert ZeroFrom(a[1..], na - 1);
        CyclicAbove(a[1..], b, na - 1, nb, Before(r, |b|));
        assert b[r] == 0;
      }
    }
  }

  /** When the degrees leave room, the cyclic convolution is the product of the polynomials. */
  lemma {:induction false} CyclicProduct(a: seq<int>, b: seq<int>, na: nat, nb: nat, y: int)
    requires ZeroFrom(a, na) && ZeroFrom(b, nb) && nb >= 1 && na + nb <= |b| + 1
    ensures Eval(Cyclic(a, b), y) == Eval(a, y) * Eval(b, y)
    decreases |a|
  {
    hide Cyclic;
    if b == [] {
      assert Cyclic(a, b) == [];
    } else if a == [] {
      NothingEval(b, y);
    } else {
      var c, na' := Cyclic(a[1..], b), if na == 0 then 0 else na - 1;
      assert ZeroFrom(a[1..], na');
      CyclicProduct(a[1..], b, na', nb, y);
      CyclicStep(a, b, y);
      RotatedEval(c, y);
      LastCoefficient(a[1..], b, na', nb);
      ProductArith(Eval(a[1..], y), Eval(b, y), a[0], y, Power(y, |b|));
    }
  }

  lemma LastCoefficient(a: seq<int>, b: seq<int>, na: nat, nb: nat)
    requires ZeroFrom(a, na) && ZeroFrom(b, nb) && nb >= 1 && b != [] && (na == 0 || na + nb <= |b|)
    ensures Cyclic(a, b)[|b| - 1] == 0
  {
    CyclicAbove(a, b, na, nb, |b| - 1);
  }

  lemma ProductArith(ea: int, eb: int, a0: int, y: int, p: int)
    ensures y * (ea * eb) - 0 * (p - 1) + a0 * eb == (a0 + y * ea) * eb
  {
    MulDist(a0, y * ea, eb);
    assert y * (ea * eb) == y * ea * eb;
  }

  /** Coefficients of the convolution of small digits are small. */
  lemma {:induction false} CyclicBound(a: seq<int>, b: seq<int>, M: nat, r: nat)
    requires r < |b| && (forall i :: 0 <= i < |a| ==> 0 <= a[i] <= M) && (forall i :: 0 <= i < |b| ==> 0 <= b[i] <= M)
    ensures 0 <= CyclicAt(a, b, r) <= |a| * (M * M)
    decreases |a|
  {
    if a == [] {
      assert |a| * (M * M) == 0;
    } else {
      CyclicBound(a[1..], b, M, Before(r, |b|));
      MulMono(0, a[0], b[r]);
      MulMono(a[0], M, b[r]);
      MulMono(b[r], M, M);
      MulDist(|a| - 1, 1, M * M);
    }
  }
}
