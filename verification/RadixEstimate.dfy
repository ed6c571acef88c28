/** How good the estimate of the quotient is in the conversion to another radix (libbf.c bf_integer_to_radix_rec):
    it is at most two away, so few adjustments follow. */
module RadixEstimate {
  import opened Limbs
  import opened Congruence
  import opened NttLoad
  import opened FloatSpec
  import opened FloatValue
  import opened FloatCorrect

  /** z is the real y rounded to the nearest number of prec bits; zero stays zero. */
  ghost predicate Nearest(y: real, prec: nat, z: real) {
    if y == 0.0 then z == 0.0 else exists m: nat, u: int :: NearestAt(y, prec, z, m, u)
  }

  ghost predicate NearestAt(y: real, prec: nat, z: real, m: nat, u: int) {
    Binade(y, prec, u) && RoundsTo(m, 1, Units(y, u), false, NearestEven) && z == Magnitude(m, u)
  }

  function Distance(x: real, y: real): real {
    if x < y then y - x else x - y
  }

  /** The error is at most half a unit. */
  lemma HalfUnit(y: real, z: real, m: nat, u: int, prec: nat)
    requires NearestAt(y, prec, z, m, u)
    ensures 2.0 * Distance(z, y) <= Scale(u)
  {
    hide Scale;
    var x, s, s' := Units(y, u), Scale(u), Scale(-u);
    UnitScale(u);
    assert (2 * m - 1) as real <= 2.0 * x <= (2 * m + 1) as real;
    Regroup(y, s', s);
    assert x * s == y;
    HalfNumbers(m as real, x, s, z, y);
  }

  lemma HalfNumbers(m: real, x: real, s: real, g: real, y: real)
    requires s > 0.0 && 2.0 * m - 1.0 <= 2.0 * x <= 2.0 * m + 1.0 && g == m * s && y == x * s
    ensures 2.0 * Distance(g, y) <= s
  {
    var d, d' := m - x, x - m;
    DifferenceTimes(m, x, s, g, y, d, d');
    HalfTimes(d, s, g - y);
    HalfTimes(d', s, y - g);
  }

  lemma DifferenceTimes(m: real, x: real, s: real, g: real, y: real, d: real, d': real)
    requires g == m * s && y == x * s && d == m - x && d' == x - m
    ensures g - y == s * d && y - g == s * d'
  {}

  lemma HalfTimes(d: real, s: real, w: real)
    requires 2.0 * d <= 1.0 && s > 0.0 && w == s * d
    ensures 2.0 * w <= s
  {
    assert s * (1.0 - 2.0 * d) >= 0.0;
  }

  /** The relative error is at most 2^-prec. */
  lemma RelativeError(y: real, prec: nat, z: real)
    requires y >= 0.0 && Nearest(y, prec, z)
    ensures Distance(z, y) * (P2(prec) as real) <= y
  {
    hide Scale, P2;
    if y > 0.0 {
      var m: nat, u: int :| NearestAt(y, prec, z, m, u);
      HalfUnit(y, z, m, u, prec);
      ScaleAdd(prec, u);
      ScaleAdd(u + prec - 1, 1);
      ScaleTwo();
      BitsScale(prec);
      ErrorNumbers(Distance(z, y), Scale(u), P2(prec) as real, Scale(u + prec - 1), y);
    }
  }

  lemma ScaleTwo()
    ensures Scale(1) == 2.0
  {
    assert P2(1) == 2;
  }

  lemma ErrorNumbers(d: real, s: real, p: real, low: real, y: real)
    requires 2.0 * d <= s && p > 0.0 && low * 2.0 == p * s && low <= y
    ensures d * p <= y
  {
    RealOrder(2.0 * d, s, p);
    assert 2.0 * d * p == 2.0 * (d * p);
  }

  /** The product under a name. */
  ghost function Times(x: real, y: real): real {
    x * y
  }

  /** bf_div, bf_mul and bf_rint as they are used: the reciprocal of b, its product with a, and the integer part. */
  ghost predicate IsEstimate(q0: int, a: nat, b: nat, inv: real, inv': real, t: real, prec: nat, qPrec: nat) {
    && inv * (b as real) == 1.0 && Nearest(inv, prec, inv')
    && Nearest(Times(a as real, inv'), qPrec, t) && q0 as real <= t < (q0 + 1) as real
  }

  /** The numbers of the code: powers of the radix and precisions in bits. */
  ghost predicate Sizes(a: nat, b: nat, radix: int, bits: nat, n1: nat, n2: nat, prec: nat, qPrec: nat) {
    && 2 <= radix <= P2(bits) && 1 <= n1 <= n2 + 1
    && b == Power(radix, n2) && a < Power(radix, n1 + n2)
    && prec == (n2 + 1) * bits + 2 && qPrec == n1 * bits
  }

  lemma {:induction false} PowerBits(radix: int, bits: nat, n: nat)
    requires 2 <= radix <= P2(bits)
    ensures n * bits >= 0 && 0 <= Power(radix, n) <= P2(n * bits)
  {
    MulMono(0, n, bits);
    if n > 0 {
      PowerBits(radix, bits, n - 1);
      assert n * bits == bits + (n - 1) * bits;
      P2Add(bits, (n - 1) * bits);
      MulMono(0, radix, Power(radix, n - 1));
      MulMono(radix, P2(bits), Power(radix, n - 1));
      MulSwap(P2(bits), Power(radix, n - 1));
      MulSwap(P2(bits), P2((n - 1) * bits));
      MulMono(Power(radix, n - 1), P2((n - 1) * bits), P2(bits));
    }
  }

  /** The dividend is below 2^qPrec divisors, and prec is two bits above that. */
  lemma DividendSize(a: nat, b: nat, radix: int, bits: nat, n1: nat, n2: nat, prec: nat, qPrec: nat) returns (r: int)
    requires Sizes(a, b, radix, bits, n1, n2, prec, qPrec)
    ensures a < Mul(r, b) && 0 <= r <= P2(qPrec) && P2(prec) >= 4 * P2(qPrec)
  {
    PowerAdd(radix, n1, n2);
    PowerBits(radix, bits, n1);
    r := Power(radix, n1);
    hide Power, P2;
    MulMono(n1, n2 + 1, bits);
    P2Monotone(qPrec, prec - 2);
    HalfPower(prec);
    HalfPower(prec - 1);
  }

  /** The exact quotient is below 2^qPrec. */
  lemma QuotientSize(a: nat, b: nat, inv: real, radix: int, bits: nat, n1: nat, n2: nat, prec: nat, qPrec: nat, x: real,
                     e: real)
    requires Sizes(a, b, radix, bits, n1, n2, prec, qPrec) && inv * (b as real) == 1.0 && x == a as real
             && e == Times(x, inv)
    ensures 0.0 <= e < P2(qPrec) as real && P2(prec) >= 4 * P2(qPrec) && inv > 0.0
  {
    hide Sizes, P2, Mul;
    var r := DividendSize(a, b, radix, bits, n1, n2, prec, qPrec);
    SizeNumbers(a, b, inv, r, P2(qPrec), x, e);
  }

  lemma SizeNumbers(a: nat, b: nat, inv: real, r: int, p: int, x: real, e: real)
    requires inv * (b as real) == 1.0 && a < Mul(r, b) && 0 <= r <= p && x == a as real && e == x * inv
    ensures 0.0 <= e < p as real && inv > 0.0
  {
    var y := b as real;
    PositiveInverse(inv, y);
    BelowQuotient(x, Mul(r, b), r, b, inv, e);
    RealOrder(x, 0.0, inv);
  }

  lemma PositiveInverse(inv: real, y: real)
    requires inv * y == 1.0 && y >= 0.0
    ensures inv > 0.0
  {
    assert inv <= 0.0 ==> inv * y <= 0.0;
  }

  /** The estimate is at most two away from the quotient. */
  lemma EstimateClose(q: int, q0: int, a: nat, b: nat, inv: real, inv': real, t: real, radix: int, bits: nat, n1: nat,
                      n2: nat, prec: nat, qPrec: nat)
    requires Sizes(a, b, radix, bits, n1, n2, prec, qPrec) && IsEstimate(q0, a, b, inv, inv', t, prec, qPrec)
    requires b > 0 && Mul(q, b) <= a < Mul(q, b) + b
    ensures q - 2 <= q0 <= q + 2
  {
    hide P2, Power, Nearest, Mul, Distance, Sizes, Times;
    var x := a as real;
    var e := Times(x, inv);
    QuotientSize(a, b, inv, radix, bits, n1, n2, prec, qPrec, x, e);
    CloseReals(x, inv, inv', t, prec, qPrec, e);
    QuotientNumbers(q, a, b, inv, x, e);
    Nearby(q, q0, e, t);
  }

  /** The two roundings and their errors. */
  lemma CloseReals(x: real, inv: real, inv': real, t: real, prec: nat, qPrec: nat, e: real)
    requires x >= 0.0 && inv > 0.0 && e == Times(x, inv) && 0.0 <= e < P2(qPrec) as real && P2(prec) >= 4 * P2(qPrec)
    requires Nearest(inv, prec, inv') && Nearest(Times(x, inv'), qPrec, t)
    ensures 2.0 * Distance(t, e) <= 3.0
  {
    hide P2, Nearest, Distance;
    RelativeError(inv, prec, inv');
    ProductError(x, inv, inv', P2(prec) as real, P2(qPrec) as real);
    var y := Times(x, inv');
    RelativeError(y, qPrec, t);
    RoundedError(y, e, t, P2(qPrec) as real);
  }

  lemma Nearby(q: int, q0: int, e: real, t: real)
    requires 2.0 * Distance(t, e) <= 3.0 && q as real <= e < (q + 1) as real && q0 as real <= t < (q0 + 1) as real
    ensures q - 2 <= q0 <= q + 2
  {}

  lemma ProductError(x: real, inv: real, inv': real, p: real, qp: real)
    requires x >= 0.0 && inv > 0.0 && Distance(inv', inv) * p <= inv && p >= 4.0 * qp && qp >= 1.0 && x * inv < qp
    ensures x * inv' >= 0.0 && 4.0 * Distance(x * inv', x * inv) <= 1.0
  {
    var d := Distance(inv', inv);
    Product1(d, p, inv);
    DistanceScaled(x, inv', inv);
    Product2(x, d, p, inv);
    Product3(x * d, p, qp);
    assert x * (inv' - (inv - d)) >= 0.0;
    assert x * (inv - d) >= 0.0;
  }

  lemma Product1(d: real, p: real, inv: real)
    requires d >= 0.0 && p >= 1.0 && d * p <= inv
    ensures d <= inv
  {
    assert d * (p - 1.0) >= 0.0;
  }

  lemma DistanceScaled(x: real, y: real, z: real)
    requires x >= 0.0
    ensures Distance(x * y, x * z) == x * Distance(y, z)
  {
    assert x * (y - z) == x * y - x * z;
    assert y >= z ==> x * (y - z) >= 0.0;
    assert y < z ==> x * (z - y) >= 0.0;
  }

  lemma Product2(x: real, d: real, p: real, inv: real)
    requires x >= 0.0 && d * p <= inv
    ensures (x * d) * p <= x * inv
  {
    assert (x * d) * p == x * (d * p);
    assert x * (inv - d * p) >= 0.0;
  }

  lemma Product3(e: real, p: real, qp: real)
    requires e >= 0.0 && e * p < qp && p >= 4.0 * qp && qp >= 1.0
    ensures 4.0 * e <= 1.0
  {
    assert e * (p - 4.0 * qp) >= 0.0;
    assert (4.0 * e) * qp <= qp;
    RealOrder(1.0, 4.0 * e, qp);
  }

  lemma RoundedError(y: real, e: real, t: real, qp: real)
    requires 0.0 <= y && 0.0 <= e < qp && 4.0 * Distance(y, e) <= 1.0 && Distance(t, y) * qp <= y && qp >= 1.0
    ensures 2.0 * Distance(t, e) <= 3.0
  {
    var d := Distance(t, y);
    assert 4.0 * y <= 5.0 * qp;
    assert (4.0 * d) * qp == 4.0 * (d * qp);
    RealOrder(5.0, 4.0 * d, qp);
    assert 4.0 * d <= 5.0;
  }

  lemma QuotientNumbers(q: int, a: nat, b: nat, inv: real, x: real, e: real)
    requires b > 0 && Mul(q, b) <= a < Mul(q, b) + b && inv * (b as real) == 1.0 && inv > 0.0 && x == a as real
             && e == Times(x, inv)
    ensures q as real <= e < (q + 1) as real
  {
    MulDist(q, 1, b);
    BelowQuotient(x, Mul(q, b), q, b, inv, e);
    BelowQuotient(x, Mul(q + 1, b), q + 1, b, inv, e);
  }

  lemma BelowQuotient(x: real, g: int, q: int, b: int, inv: real, e: real)
    requires g == Mul(q, b) && inv * (b as real) == 1.0 && inv > 0.0 && e == x * inv
    ensures x < g as real <==> e < q as real
  {
    RealMul(q, b);
    RealOrder(x, g as real, inv);
    hide Mul;
    Regroup(q as real, b as real, inv);
  }
}
