/** Floating point numbers as real numbers, and what it means that a result is the correctly rounded real. */
module FloatValue {
  import opened Limbs
  import opened BitFields
  import opened FloatRound

  /** 2^e */
  ghost function Scale(e: int): (r: real)
    ensures r > 0.0
  {
    if e >= 0 then P2(e) as real else 1.0 / (P2(-e) as real)
  }

  lemma ScaleNatural(j: nat, k: nat)
    ensures Scale(j + k) == Scale(j) * Scale(k) && Scale(0 - j) * Scale(j) == 1.0
  {
    P2Add(j, k);
    hide P2;
    RealProduct(P2(j), P2(k), P2(j + k));
  }

  lemma RealProduct(x: int, y: int, z: int)
    requires z == x * y
    ensures z as real == (x as real) * (y as real)
  {}

  lemma ScaleAdd(d: int, e: int)
    ensures Scale(d + e) == Scale(d) * Scale(e)
  {
    hide Scale;
    if d >= 0 && e >= 0 {
      ScaleNatural(d, e);
    } else if d < 0 && e < 0 {
      ScaleNatural(-d, -e);
      ScaleInverse(-d);
      ScaleInverse(-e);
      ScaleInverse(-d - e);
      InverseProduct(Scale(-d), Scale(d), Scale(-e), Scale(e), Scale(-d - e), Scale(d + e));
    } else if d + e >= 0 {
      var big, small := if d >= 0 then d else e, if d >= 0 then -e else -d;
      ScaleNatural(d + e, small);
      ScaleInverse(small);
      InverseFactor(Scale(d + e), Scale(small), Scale(-small), Scale(big));
    } else {
      var big, small := if d < 0 then -d else -e, if d < 0 then e else d;
      ScaleNatural(-d - e, small);
      ScaleInverse(-d - e);
      ScaleInverse(big);
      QuotientScale(Scale(-d - e), Scale(d + e), Scale(small), Scale(big), Scale(-big));
    }
  }

  lemma ScaleInverse(j: nat)
    ensures Scale(0 - j) * Scale(j) == 1.0
  {
    ScaleNatural(j, 0);
  }

  lemma InverseProduct(x: real, x': real, y: real, y': real, z: real, z': real)
    requires z == x * y && x' * x == 1.0 && y' * y == 1.0 && z' * z == 1.0 && z > 0.0
    ensures z' == x' * y'
  {
    assert (x' * y') * z == (x' * x) * (y' * y);
    CancelReal(z', x' * y', z);
  }

  lemma InverseFactor(s: real, x: real, x': real, b: real)
    requires b == s * x && x' * x == 1.0
    ensures s == b * x' && s == x' * b
  {
    assert b * x' == s * (x' * x);
  }

  lemma QuotientScale(z: real, z': real, x: real, b: real, b': real)
    requires b == z * x && z' * z == 1.0 && b' * b == 1.0 && b > 0.0
    ensures z' == x * b' && z' == b' * x
  {
    assert z' * b == (z' * z) * x;
    assert (x * b') * b == x * (b' * b);
    CancelReal(z', x * b', b);
  }

  lemma CancelReal(x: real, y: real, p: real)
    requires x * p == y * p && p > 0.0
    ensures x == y
  {
    assert (x - y) * p == 0.0;
  }

  /** The magnitude of a finite number. */
  ghost function Magnitude(n: nat, e: int): real {
    (n as real) * Scale(e)
  }

  lemma RealMul(x: int, y: int)
    ensures Mul(x, y) as real == (x as real) * (y as real)
  {}

  /** Multiplication by a positive real keeps the order. */
  lemma RealOrder(x: real, y: real, p: real)
    requires p > 0.0
    ensures x < y <==> x * p < y * p
    ensures x == y <==> x * p == y * p
  {
    assert (y - x) * p == y * p - x * p;
    if x < y {
      assert (y - x) * p > 0.0;
    } else if y < x {
      assert (x - y) * p > 0.0;
    }
  }

  lemma BitsScale(j: nat)
    ensures Scale(j) == P2(j) as real
  {}

  lemma Regroup(v: real, p: real, e: real)
    ensures v * (p * e) == (v * p) * e
  {}

  lemma ScaleZero()
    ensures Scale(0) == 1.0
  {
    assert P2(0) == 1;
  }

  lemma UnitScale(e: int)
    ensures Scale(e) * Scale(-e) == 1.0
  {
    hide Scale;
    ScaleAdd(e, -e);
    ScaleZero();
  }

  lemma PowerScale(d: nat)
    ensures Scale(64 * d) == Pow(d) as real
  {
    P2Pow(d);
  }

  lemma ScaleMonotone(x: int, y: int)
    requires x <= y
    ensures Scale(x) <= Scale(y)
  {
    hide Scale, P2;
    ScaleAdd(y - x, x);
    BitsScale(y - x);
    Bigger(Scale(x), P2(y - x) as real);
  }

  lemma Bigger(x: real, y: real)
    requires x > 0.0 && y >= 1.0
    ensures x <= y * x
  {
    RealOrder(1.0, y, x);
  }

  /** The same number, as integers and as reals. */
  lemma SameMagnitude(n: nat, e: int, n': nat, e': int)
    ensures Same(n, e, n', e') <==> Magnitude(n, e) == Magnitude(n', e')
  {
    hide Scale, P2;
    if e <= e' {
      Rescaled(n', e', e);
      MagnitudeOrder(n, Mul(n', P2(e' - e)), e);
    } else {
      Rescaled(n, e, e');
      MagnitudeOrder(Mul(n, P2(e - e')), n', e');
    }
  }

  lemma Rescaled(n: nat, e: int, e': int)
    requires e' <= e
    ensures Mul(n, P2(e - e')) >= 0 && Magnitude(n, e) == Magnitude(Mul(n, P2(e - e')), e')
  {
    hide Scale, P2;
    MulMono(0, n, P2(e - e'));
    ScaleAdd(e - e', e');
    BitsScale(e - e');
    RealMul(n, P2(e - e'));
    Regroup(n as real, P2(e - e') as real, Scale(e'));
  }

  lemma MagnitudeOrder(x: nat, y: nat, e: int)
    ensures x == y <==> Magnitude(x, e) == Magnitude(y, e)
    ensures x < y <==> Magnitude(x, e) < Magnitude(y, e)
  {
    hide Scale;
    RealOrder(x as real, y as real, Scale(e));
  }

  lemma WholeMagnitude(v: nat)
    ensures Magnitude(v, 0) == v as real
  {
    ScaleZero();
  }

  lemma PowerMagnitude(j: nat, e: int)
    ensures Magnitude(P2(j), e) == Scale(j + e)
  {
    hide Scale, P2;
    ScaleAdd(j, e);
    BitsScale(j);
  }
}
