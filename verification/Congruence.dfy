/** Congruences, powers and polynomials over the integers: the arithmetic of the number theoretic
    transform. */
module Congruence {
  import opened Limbs

  ghost predicate Cong(a: int, b: int, m: int) {
    m > 0 && a % m == b % m
  }

  lemma CongRefl(x: int, m: int)
    requires m > 0
    ensures Cong(x, x, m)
  {}

  lemma CongPositive(a: int, b: int, m: int)
    requires Cong(a, b, m)
    ensures m > 0
  {}

  lemma CongWitness(a: int, b: int, k: int, m: int)
    requires m > 0 && a == b + k * m
    ensures Cong(a, b, m)
  {
    MulDist(b / m, k, m);
    DivModUnique(a, m, b / m + k, b % m);
  }

  lemma CongQuotient(a: int, b: int, m: int) returns (k: int)
    requires Cong(a, b, m)
    ensures a == b + k * m
  {
    k := a / m - b / m;
  }

  lemma CongAdd(a: int, b: int, c: int, d: int, m: int)
    requires Cong(a, b, m) && Cong(c, d, m)
    ensures Cong(a + c, b + d, m) && Cong(a - c, b - d, m)
  {
    var j := CongQuotient(a, b, m);
    var k := CongQuotient(c, d, m);
    CongWitness(a + c, b + d, j + k, m);
    CongWitness(a - c, b - d, j - k, m);
  }

  lemma CongMul(a: int, b: int, c: int, d: int, m: int)
    requires Cong(a, b, m) && Cong(c, d, m)
    ensures Cong(a * c, b * d, m)
  {
    var j := CongQuotient(a, b, m);
    var k := CongQuotient(c, d, m);
    MulExpand(b, j * m, d, k * m);
    assert a * c == b * d + (b * k + j * d + j * m * k) * m by {
      assert b * (k * m) == b * k * m;
      assert j * m * d == j * d * m;
      assert j * m * (k * m) == j * m * k * m;
    }
    CongWitness(a * c, b * d, b * k + j * d + j * m * k, m);
  }

  lemma MulExpand(a: int, b: int, c: int, d: int)
    ensures (a + b) * (c + d) == a * c + a * d + b * c + b * d
  {}

  lemma CongSelf(a: int, m: int)
    requires m > 0
    ensures Cong(a % m, a, m) && Cong(a + m, a, m) && Cong(a - m, a, m)
  {
    CongWitness(a, a % m, a / m, m);
    CongWitness(a + m, a, 1, m);
    CongWitness(a - m, a, -1, m);
  }

  /** A factor with an inverse can be cancelled. */
  lemma CongCancel(n: int, inv: int, a: int, b: int, m: int)
    requires Cong(n * inv, 1, m) && Cong(n * a, n * b, m)
    ensures Cong(a, b, m)
  {
    CongMul(n * inv, 1, a, a, m);
    CongMul(n * inv, 1, b, b, m);
    CongMul(n * a, n * b, inv, inv, m);
    assert n * inv * a == n * a * inv && n * inv * b == n * b * inv;
  }

  // Powers.

  ghost function Power(b: int, e: nat): int {
    if e == 0 then 1 else b * Power(b, e - 1)
  }

  lemma {:induction false} PowerAdd(b: int, d: nat, e: nat)
    ensures Power(b, d + e) == Power(b, d) * Power(b, e)
  {
    if d > 0 {
      PowerAdd(b, d - 1, e);
      assert b * (Power(b, d - 1) * Power(b, e)) == b * Power(b, d - 1) * Power(b, e);
    }
  }

  lemma {:induction false} PowerMul(b: int, d: nat, e: nat)
    ensures Power(Power(b, d), e) == Power(b, d * e)
    decreases e
  {
    if e == 0 {
      assert d * e == 0;
    } else {
      PowerMul(b, d, e - 1);
      assert d * e == d + d * (e - 1);
      PowerAdd(b, d, d * (e - 1));
    }
  }

  lemma Interleave(a: int, b: int, x: int, y: int)
    ensures (a * b) * (x * y) == (a * x) * (b * y)
  {
    MulAssoc(a * b, x, y);
    MulAssoc(a * x, b, y);
    assert a * b * x == a * x * b;
  }

  lemma {:induction false} PowerBase(a: int, b: int, e: nat)
    ensures Power(a * b, e) == Power(a, e) * Power(b, e)
  {
    if e > 0 {
      PowerBase(a, b, e - 1);
      Interleave(a, b, Power(a, e - 1), Power(b, e - 1));
    }
  }

  lemma {:induction false} PowerCong(a: int, b: int, e: nat, m: int)
    requires Cong(a, b, m)
    ensures Cong(Power(a, e), Power(b, e), m)
  {
    if e > 0 {
      PowerCong(a, b, e - 1, m);
      hide Cong;
      CongMul(a, b, Power(a, e - 1), Power(b, e - 1), m);
    }
  }

  lemma {:induction false} PowerOne(e: nat)
    ensures Power(1, e) == 1
  {
    if e > 0 {
      PowerOne(e - 1);
    }
  }

  lemma {:induction false} PowerMinusOne(e: nat)
    ensures Power(-1, 2 * e) == 1 && Power(-1, 2 * e + 1) == -1
  {
    if e > 0 {
      PowerMinusOne(e - 1);
      assert Power(-1, 2 * e) == -1 * Power(-1, 2 * (e - 1) + 1);
    }
    assert Power(-1, 2 * e + 1) == -1 * Power(-1, 2 * e);
  }

  // Polynomials, lowest coefficient first.

  ghost function Eval(c: seq<int>, y: int): int {
    if c == [] then 0 else c[0] + y * Eval(c[1..], y)
  }

  lemma {:induction false} EvalConcat(a: seq<int>, b: seq<int>, y: int)
    ensures Eval(a + b, y) == Eval(a, y) + Power(y, |a|) * Eval(b, y)
    decreases |a|
  {
    if a == [] {
      assert a + b == b;
    } else {
      assert (a + b)[1..] == a[1..] + b;
      EvalConcat(a[1..], b, y);
      var e, p, f := Eval(a[1..], y), Power(y, |a| - 1), Eval(b, y);
      assert y * (e + p * f) == y * e + y * p * f;
    }
  }

  lemma EvalOne(c: int, y: int)
    ensures Eval([c], y) == c
  {
    assert [c][1..] == [];
  }

  ghost predicate CongEach(a: seq<int>, b: seq<int>, m: int) {
    |a| == |b| && forall i :: 0 <= i < |a| ==> Cong(a[i], b[i], m)
  }

  lemma {:induction false} EvalCong(a: seq<int>, b: seq<int>, y: int, z: int, m: int)
    requires m > 0 && CongEach(a, b, m) && Cong(y, z, m)
    ensures Cong(Eval(a, y), Eval(b, z), m)
    decreases |a|
  {
    hide Cong;
    if a == [] {
      CongRefl(0, m);
    } else {
      EvalCong(a[1..], b[1..], y, z, m);
      CongMul(y, z, Eval(a[1..], y), Eval(b[1..], z), m);
      CongAdd(a[0], b[0], y * Eval(a[1..], y), z * Eval(b[1..], z), m);
    }
  }

  lemma LinearArith(a: int, b: int, k: int, y: int, e: int, f: int)
    ensures (a + k * b) + y * (e + k * f) == (a + y * e) + k * (b + y * f)
  {
    MulDist(e, k * f, y);
    MulDist(b, y * f, k);
    assert y * (k * f) == k * (y * f);
  }

  lemma {:induction false} EvalLinear(a: seq<int>, b: seq<int>, c: seq<int>, k: int, y: int)
    requires |a| == |b| == |c| && forall i :: 0 <= i < |c| ==> c[i] == a[i] + k * b[i]
    ensures Eval(c, y) == Eval(a, y) + k * Eval(b, y)
    decreases |a|
  {
    if a != [] {
      EvalLinear(a[1..], b[1..], c[1..], k, y);
      LinearArith(a[0], b[0], k, y, Eval(a[1..], y), Eval(b[1..], y));
    }
  }

  lemma ScaleArith(a: int, s: int, g: int, y: int, e: int)
    ensures s * a + y * ((s * g) * e) == s * (a + (g * y) * e)
  {
    MulDist(a, (g * y) * e, s);
    assert y * ((s * g) * e) == s * ((g * y) * e);
  }

  /** Coefficients multiplied by the powers of g: the polynomial at g * y. */
  lemma {:induction false} EvalScale(a: seq<int>, b: seq<int>, g: int, y: int, s: int)
    requires |a| == |b| && forall i :: 0 <= i < |a| ==> b[i] == a[i] * (s * Power(g, i))
    ensures Eval(b, y) == s * Eval(a, g * y)
    decreases |a|
  {
    if a != [] {
      forall i | 0 <= i < |a| - 1
        ensures b[1..][i] == a[1..][i] * ((s * g) * Power(g, i))
      {
        assert Power(g, i + 1) == g * Power(g, i);
        assert s * (g * Power(g, i)) == (s * g) * Power(g, i);
      }
      EvalScale(a[1..], b[1..], g, y, s * g);
      assert b[0] == a[0] * (s * Power(g, 0)) == s * a[0];
      ScaleArith(a[0], s, g, y, Eval(a[1..], g * y));
    }
  }

  lemma CongTrans(a: int, b: int, c: int, m: int)
    requires Cong(a, b, m) && (Cong(b, c, m) || Cong(c, b, m))
    ensures Cong(a, c, m)
  {}
}
