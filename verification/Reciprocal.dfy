/** The arithmetic behind libbf.c mp_recip and mp_divnorm_large: bounds on Newton's reciprocal step
    and on the quotient obtained from an approximate reciprocal. Everything here is about plain
    integers; the limb loops are in LimbDivFast. */
module Reciprocal {
  import opened Limbs

  /** x approximates n / a from below to within two units: a * x < n < a * (x + 2). */
  ghost predicate IsReciprocal(x: int, a: int, n: int) {
    Mul(a, x) < n < Mul(a, x) + 2 * a
  }

  /** One Newton step, with p = B^l, k = B^(2h-l), bigN = B^(n+h), t = bigN - a * x,
      tm = t div p, f = tm * x div k: the new approximation x * p + f never exceeds. */
  lemma NewtonUpper(a: int, x: int, t: int, p: int, k: int, bigN: int, tm: int, f: int, r: int)
    requires a > 0 && x > 0 && p > 0 && k > 0 && t > 0
    requires t == bigN - a * x
    requires tm * p <= t
    requires f * k <= tm * x
    requires bigN == p * (k * p)
    requires r == x * p + f
    ensures a * r * (k * p) <= bigN * bigN - t * t
  {
    var ax, fk := a * x, f * k;
    calc {
      a * r * (k * p);
    ==  { assert a * (x * p + f) * (k * p) == a * x * (p * (k * p)) + a * (f * k) * p; }
      ax * bigN + a * fk * p;
    <=  { MulMono(fk, tm * x, a * p); assert a * fk * p == fk * (a * p); }
      ax * bigN + tm * x * (a * p);
    ==  { assert tm * x * (a * p) == ax * (tm * p); }
      ax * bigN + ax * (tm * p);
    <=  { MulMono(0, a, x); MulMono(tm * p, t, ax); }
      ax * bigN + ax * t;
    ==
      (bigN - t) * bigN + (bigN - t) * t;
    ==
      bigN * bigN - t * t;
    }
  }

  /** ... and it misses by less than one unit more than the squared error. */
  lemma NewtonLower(a: int, x: int, t: int, p: int, k: int, bigN: int, tm: int, f: int, r: int)
    requires a > 0 && x > 0 && p > 0 && k > 0
    requires t == bigN - a * x
    requires t < tm * p + p
    requires tm * x < f * k + k
    requires bigN == p * (k * p)
    requires r == x * p + f
    ensures bigN * bigN - t * t - a * x * p < (a * r + a) * (k * p)
  {
    var ax, fk := a * x, f * k;
    calc {
      (a * r + a) * (k * p);
    ==  { assert (a * (x * p + f) + a) * (k * p) == a * x * (p * (k * p)) + (fk + k) * (a * p); }
      ax * bigN + (fk + k) * (a * p);
    >   { MulMono(0, a, p); StrictMul(tm * x, fk + k, a * p); }
      ax * bigN + tm * x * (a * p);
    ==  { assert tm * x * (a * p) == ax * (tm * p); }
      ax * bigN + ax * (tm * p);
    >=  { MulMono(0, a, x); MulMono(t - p, tm * p, ax); }
      ax * bigN + ax * (t - p);
    ==
      (bigN - t) * bigN + (bigN - t) * t - ax * p;
    ==
      bigN * bigN - t * t - ax * p;
    }
  }

  lemma StrictMul(x: int, y: int, z: int)
    requires x < y && z > 0
    ensures x * z < y * z
  {}

  /** The squared error and the truncation stay below one unit of the new precision. */
  lemma NewtonError(a: int, t: int, axp: int, bn: int, b2n: int, kp: int)
    requires 0 < a < bn <= 2 * a && 0 < t < 2 * a
    requires b2n == bn * bn && axp < b2n && kp >= 6 * bn
    ensures t * t + axp < a * kp
  {
    MulMono(t, 2 * a, t);
    MulMono(t, 2 * a, 2 * a);
    MulMono(a, bn, a);
    MulMono(bn, 2 * a, bn);
    MulMono(6 * bn, kp, a);
  }

  lemma NewtonStep(a: int, x: int, t: int, p: int, k: int, bigN: int, tm: int, f: int, r: int, bn: int, b2n: int)
    requires 0 < a < bn <= 2 * a && x > 0 && p > 0 && k > 0
    requires t == bigN - a * x && 0 < t < 2 * a
    requires tm * p <= t < tm * p + p
    requires f * k <= tm * x < f * k + k
    requires bigN == p * (k * p) && bigN * p == b2n && b2n == bn * bn && k * p >= 6 * bn
    requires r == x * p + f
    ensures IsReciprocal(r, a, b2n)
  {
    var axp, ar, kp, n2, tt := a * x * p, a * r, k * p, bigN * bigN, t * t;
    NewtonPair(a, x, t, p, k, bigN, tm, f, r, axp, ar, kp, n2, tt);
    NewtonSquare(a * x, bigN, p, kp, axp, b2n, n2);
    NewtonError(a, t, axp, bn, b2n, kp);
    MulMono(1, t, t);
    NewtonCancel(ar, a, n2, tt, axp, b2n, kp);
  }

  /** Both bounds of the step, on named products. */
  lemma NewtonPair(a: int, x: int, t: int, p: int, k: int, bigN: int, tm: int, f: int, r: int,
                   axp: int, ar: int, kp: int, n2: int, tt: int)
    requires a > 0 && x > 0 && p > 0 && k > 0 && t > 0
    requires t == bigN - a * x
    requires tm * p <= t < tm * p + p
    requires f * k <= tm * x < f * k + k
    requires bigN == p * (k * p) && r == x * p + f
    requires axp == a * x * p && ar == a * r && kp == k * p && n2 == bigN * bigN && tt == t * t
    ensures ar * kp <= n2 - tt && n2 - tt - axp < (ar + a) * kp
  {
    NewtonUpper(a, x, t, p, k, bigN, tm, f, r);
    NewtonLower(a, x, t, p, k, bigN, tm, f, r);
  }

  lemma NewtonSquare(ax: int, bigN: int, p: int, kp: int, axp: int, b2n: int, n2: int)
    requires ax < bigN && p > 0 && axp == ax * p && b2n == bigN * p && bigN == p * kp && n2 == bigN * bigN
    ensures axp < b2n && n2 == b2n * kp
  {
    StrictMul(ax, bigN, p);
    assert bigN * (p * kp) == bigN * p * kp;
  }

  lemma NewtonCancel(ar: int, a: int, n2: int, tt: int, axp: int, b2n: int, kp: int)
    requires kp > 0 && tt > 0 && tt + axp < a * kp
    requires n2 == b2n * kp
    requires ar * kp <= n2 - tt
    requires n2 - tt - axp < (ar + a) * kp
    ensures ar < b2n < ar + 2 * a
  {
    if ar >= b2n {
      MulMono(b2n, ar, kp);
    }
    if ar + 2 * a <= b2n {
      MulMono(ar + 2 * a, b2n, kp);
      MulDist(ar + a, a, kp);
    }
  }

  /** A reciprocal of a normalized number has top limb 1. */
  lemma ReciprocalTop(r: int, a: int, bn: int, b2n: int)
    requires 0 < a < bn <= 2 * a
    requires b2n == Mul(bn, bn) && IsReciprocal(r, a, b2n)
    ensures bn <= r < 2 * bn
  {
    if r >= 2 * bn {
      MulMono(2 * bn, r, a);
      MulMono(bn, 2 * a, bn);
    } else if r < bn {
      MulMono(r, bn - 1, a);
      MulDist(bn, 1, a);
      MulMono(a, bn - 1, bn);
      MulDist(bn, 1, bn);
    }
  }

  /** The quotient estimated from an approximate reciprocal never exceeds the quotient and misses the
      remainder range by less than one limb. bigM is BASE^(n+nb), m * s == bigM. */
  lemma EstimatedQuotient(a: int, b: int, inv: int, hi: int, q: int, m: int, s: int, bigM: int, slack: int)
    requires 0 <= a && 0 < b && 0 <= inv && 0 < m && 0 < s && bigM == m * s
    requires b * inv <= bigM < b * inv + slack
    requires hi * s <= a < hi * s + s
    requires q * m <= inv * hi < q * m + m
    ensures b * q <= a
    ensures (a - b * q) * bigM <= slack * a + bigM * s + b * bigM
  {
    var bi := b * inv;
    calc {
      b * q * bigM;
    ==  { assert b * q * (m * s) == q * m * (b * s); }
      q * m * (b * s);
    <=  { MulMono(0, b, s); MulMono(q * m, inv * hi, b * s); }
      inv * hi * (b * s);
    ==  { assert inv * hi * (b * s) == bi * (hi * s); }
      bi * (hi * s);
    <=  { MulMono(0, b, inv); MulMono(hi * s, a, bi); }
      bi * a;
    <=  { MulMono(bi, bigM, a); }
      bigM * a;
    }
    MulMono(1, m, s);
    if b * q > a {
      MulMono(a + 1, b * q, bigM);
      MulDist(a, 1, bigM);
    }
    calc {
      a * bigM;
    <=  { MulMono(bigM, bi + slack, a); MulDist(bi, slack, a); }
      bi * a + slack * a;
    <=  { MulMono(a, hi * s + s, bi); MulDist(hi * s, s, bi); }
      bi * (hi * s) + bi * s + slack * a;
    <=  { MulMono(bi, bigM, s); }
      bi * (hi * s) + bigM * s + slack * a;
    ==  { assert inv * hi * (b * s) == bi * (hi * s); }
      inv * hi * (b * s) + bigM * s + slack * a;
    <=  { MulMono(inv * hi, q * m + m, b * s); MulDist(q * m, m, b * s); }
      q * m * (b * s) + m * (b * s) + bigM * s + slack * a;
    ==  { assert q * m * (b * s) == b * q * bigM; assert m * (b * s) == b * bigM; }
      b * q * bigM + b * bigM + bigM * s + slack * a;
    }
    MulDist(a, b * q, bigM);
  }

  /** With the divisor truncated to its top limbs and incremented (bt * w - w <= b <= bt * w), the
      reciprocal of bt still divides b from below. Without truncation w is 1 and bt is b + 1. */
  lemma TruncatedDivisor(b: int, bt: int, w: int, inv: int, b2n: int, bigM: int, pb: int)
    requires 0 < b < pb && 0 < w && 0 <= inv
    requires bt * w - w <= b <= bt * w
    requires bt * inv <= b2n < bt * inv + 2 * bt
    requires b2n * w == bigM
    requires inv * w <= 2 * pb && 2 * w <= pb
    ensures b * inv <= bigM < b * inv + 5 * pb
  {
    calc {
      b * inv;
    <=  { MulMono(b, bt * w, inv); }
      bt * w * inv;
    ==  { assert bt * w * inv == bt * inv * w; }
      bt * inv * w;
    <=  { MulMono(bt * inv, b2n, w); }
      bigM;
    }
    calc {
      bigM;
    <   { StrictMul(b2n, bt * inv + 2 * bt, w); }
      (bt * inv + 2 * bt) * w;
    ==  { assert (bt * inv + 2 * bt) * w == bt * w * inv + 2 * (bt * w); }
      bt * w * inv + 2 * (bt * w);
    <=  { MulMono(bt * w, b + w, inv); MulDist(b, w, inv); }
      b * inv + w * inv + 2 * (b + w);
    <=  { assert w * inv == inv * w; }
      b * inv + 2 * pb + 2 * b + 2 * w;
    <
      b * inv + 5 * pb;
    }
  }

  /** A divisor padded with zero limbs up to the length of the quotient has a reciprocal that is
      also one for the divisor itself, at the divisor's own scale. */
  lemma PaddedDivisor(b: int, z: int, inv: int, b2n: int, bigM: int, pb: int)
    requires 0 < b < pb && 0 < z
    requires b * z * inv < b2n < b * z * inv + 2 * (b * z)
    requires b2n == bigM * z
    ensures b * inv <= bigM < b * inv + 5 * pb
  {
    assert b * z * inv == b * inv * z;
    if b * inv > bigM {
      MulMono(bigM, b * inv, z);
    }
    if bigM >= b * inv + 2 * b {
      MulMono(b * inv + 2 * b, bigM, z);
      MulDist(b * inv, 2 * b, z);
    }
  }

  /** ceil(n2 / a) - 1, obtained from an exact division. */
  lemma CeilingReciprocal(q: int, rem: int, a: int, n2: int)
    requires 0 <= rem < a && Mul(q, a) + rem == n2
    ensures rem != 0 ==> IsReciprocal(q, a, n2)
    ensures rem == 0 ==> IsReciprocal(q - 1, a, n2)
  {
    MulDist(q, 1, a);
  }
}
