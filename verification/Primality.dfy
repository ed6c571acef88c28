/** The number theory of the calculator (qjscalc.js): modular inverse and power, and the primality test. */
module Primality {
  import opened Limbs
  import opened Congruence
  import opened Fermat

  datatype Result<T> = Ok(value: T) | NotInvertible | DivisionByZero

  function Abs(x: int): nat {
    if x < 0 then -x else x
  }

  // Inverses.

  /** x has an inverse modulo y. */
  ghost predicate Invertible(x: int, y: int) {
    exists r: int :: Divides(y, x * r - 1)
  }

  /** Integer.fdivrem */
  method FloorDivRem(v: int, u: int) returns (q: int, r: int)
    requires u != 0
    ensures v == Mul(q, u) + r && if u > 0 then 0 <= r < u else u < r <= 0
  {
    if u > 0 {
      q, r := v / u, v % u;
    } else {
      q, r := -v / -u, -(-v % -u);
    }
  }

  /** u and v are what the extended Euclidean algorithm has made of x and y. */
  ghost predicate Euclidean(x: int, y: int, u: int, v: int, c: int, a: int) {
    && Divides(y, u - x * c) && Divides(y, v - x * a)
    && forall g: int :: Divides(g, u) && Divides(g, v) ==> Divides(g, x) && Divides(g, y)
  }

  lemma EuclideanStart(x: int, y: int)
    ensures Euclidean(x, y, x, y, 1, 0)
  {
    DividesSelf(y);
    assert y - x * 0 == y && x - x * 1 == 0;
  }

  lemma EuclideanStep(x: int, y: int, u: int, v: int, c: int, a: int, q: int, r: int)
    requires Euclidean(x, y, u, v, c, a) && v == Mul(q, u) + r
    ensures Euclidean(x, y, r, u, a - q * c, c)
  {
    DividesMul(y, u - x * c, q);
    DividesSub(y, v - x * a, q * (u - x * c));
    StepNumbers(x, u, v, c, a, q, r);
    forall g: int | Divides(g, r) && Divides(g, u)
      ensures Divides(g, x) && Divides(g, y)
    {
      DividesMul(g, u, q);
      DividesSub(g, Mul(q, u), r);
    }
  }

  lemma StepNumbers(x: int, u: int, v: int, c: int, a: int, q: int, r: int)
    requires v == Mul(q, u) + r
    ensures (v - x * a) - q * (u - x * c) == r - x * (a - q * c)
  {
    assert q * (u - x * c) == q * u - q * (x * c);
    assert x * (a - q * c) == x * a - x * (q * c);
    assert q * (x * c) == x * (q * c);
  }

  /** When the algorithm ends, v is the greatest common divisor up to its sign. */
  lemma EuclideanEnd(x: int, y: int, v: int, c: int, a: int)
    requires Euclidean(x, y, 0, v, c, a)
    ensures v == 1 ==> Divides(y, x * a - 1)
    ensures Invertible(x, y) <==> v == 1 || v == -1
  {
    DividesSelf(v);
    DividesSelf(y);
    DividesSub(y, 0, v - x * a);
    if v == 1 {
      assert Divides(y, x * a - 1);
    } else if v == -1 {
      assert v - x * a == x * -a - 1;
      assert Divides(y, x * -a - 1);
    }
    if r: int :| Divides(y, x * r - 1) {
      DividesTrans(v, y, x * r - 1);
      DividesMul(v, x, r);
      DividesSub(v, x * r, x * r - 1);
      assert Divides(v, 1);
      UnitDivisor(v);
    }
  }

  lemma UnitDivisor(v: int)
    requires Divides(v, 1)
    ensures v == 1 || v == -1
  {
    var k: int :| 1 == Mul(k, v);
    MulUnit(k);
    if v >= 2 {
      UnitNumbers(k, v);
    } else if v <= -2 {
      assert k * v == -k * -v;
      UnitNumbers(-k, -v);
    }
  }

  lemma UnitNumbers(k: int, v: int)
    requires v >= 2
    ensures k * v != 1
  {
    if k >= 1 {
      MulMono(1, k, v);
    } else {
      MulMono(k, 0, v);
    }
  }

  /** The inverses that invmod finds: only those of positive numbers, and of zero modulo one. */
  ghost predicate Found(x: int, y: int) {
    Invertible(x, y) && (x > 0 || (x == 0 && y == 1))
  }

  /** Integer.invmod: it only finds an inverse of a number that is positive. */
  method InvMod(x: int, y: int) returns (r: Result<int>)
    ensures y != 0 ==> (r.Ok? <==> Found(x, y))
    ensures y != 0 && !r.Ok? ==> r == NotInvertible
    ensures r.Ok? ==> y != 0 && 0 <= r.value < Abs(y) && Cong(x * r.value, 1, Abs(y))
    ensures y == 0 ==> r == if x == 1 then DivisionByZero else NotInvertible
  {
    hide Euclidean, Invertible, Mul;
    var u, v, c, a := x, y, 1, 0;
    EuclideanStart(x, y);
    while u != 0
      invariant Euclidean(x, y, u, v, c, a)
      invariant x > 0 ==> u >= 0 && (v > 0 || (u == x && v == y))
      invariant x < 0 ==> u <= 0 && (v < 0 || (u == x && v == y))
      invariant x == 0 ==> u == x && v == y
      invariant y == 0 ==> (u == x && v == y) || (u == 0 && v == x)
      decreases Abs(u)
    {
      var q, r := FloorDivRem(v, u);
      NothingDivided(v, q, u, r);
      EuclideanStep(x, y, u, v, c, a, q, r);
      u, v, c, a := r, u, a - q * c, c;
    }
    EuclideanEnd(x, y, v, c, a);
    if v != 1 {
      return NotInvertible;
    }
    if y == 0 {
      return DivisionByZero;
    }
    InverseIs(x, y, a);
    return Ok(a % y);
  }

  /** -1 has the inverse 4 modulo 5, but it is not positive, so InvMod does not find it. */
  lemma NegativeInverse()
    ensures Invertible(-1, 5) && !Found(-1, 5)
  {
    assert Mul(-1, 5) == -1 * 4 - 1;
  }

  lemma NothingDivided(v: int, q: int, u: int, r: int)
    requires v == Mul(q, u) + r && u != 0 && if u > 0 then 0 <= r < u else u < r <= 0
    ensures v == 0 ==> r == 0
  {
    if v == 0 && u > 0 {
      DivModUnique(0, u, 0, 0);
      DivModUnique(0, u, q, r);
    } else if v == 0 {
      assert Mul(q, u) == q * u == -q * -u;
      DivModUnique(0, -u, 0, 0);
      DivModUnique(0, -u, q, -r) by { assert 0 == q * -u - r by { MulNeg(u, q); MulSwap(u, q); MulSwap(-u, q); } }
    }
  }

  lemma InverseIs(x: int, y: int, a: int)
    requires y != 0 && Divides(y, x * a - 1)
    ensures 0 <= a % y < Abs(y) && Cong(x * (a % y), 1, Abs(y))
  {
    var m := Abs(y);
    DividesAbs(y, x * a - 1);
    DividesDifference(x * a, 1, m);
    SameRemainder(a, y);
    CongSelf(a, m);
    CongRefl(x, m);
    hide Cong;
    CongMul(x, x, a % m, a, m);
  }

  lemma DividesAbs(y: int, n: int)
    requires Divides(y, n)
    ensures Divides(Abs(y), n)
  {
    var k: int :| n == Mul(k, y);
    if y < 0 {
      assert Mul(k, y) == Mul(-k, -y);
    }
  }

  // Powers.

  lemma PowerStep(a: int, b: nat)
    requires b > 0
    ensures Power(a, b) == (if b % 2 == 1 then a else 1) * Power(a * a, b / 2)
  {
    assert Power(a, 2) == a * a by {
      assert Power(a, 1) == a * Power(a, 0);
    }
    PowerMul(a, 2, b / 2);
    if b % 2 == 1 {
      assert b == 2 * (b / 2) + 1;
    }
  }

  /** One binary digit of the exponent. */
  lemma DigitDone(r: int, a: int, b: nat, w: int, m: int, r': int, a': int)
    requires m > 0 && b > 0 && Cong(r * Power(a, b), w, m)
    requires r' == (if b % 2 == 1 then (r * a) % m else r) && Cong(a', a * a, m)
    ensures Cong(r' * Power(a', b / 2), w, m)
  {
    PowerStep(a, b);
    var f := if b % 2 == 1 then a else 1;
    CongSelf(r * a, m);
    CongRefl(r, m);
    assert Cong(r', r * f, m);
    PowerCong(a', a * a, b / 2, m);
    hide Cong, Power;
    CongMul(r', r * f, Power(a', b / 2), Power(a * a, b / 2), m);
    MulAssoc(r, f, Power(a * a, b / 2));
    CongTrans(r' * Power(a', b / 2), r * Power(a, b), w, m);
  }

  /** The loop of Integer.pmod. */
  method PowerMod(a0: int, b0: int, m: int) returns (r: int)
    requires b0 > 0 && m != 0
    ensures 0 <= r < Abs(m) && Cong(r, Power(a0, b0), Abs(m))
  {
    hide Cong, Power;
    var a, b := a0, b0;
    r := 1;
    MulUnit(Power(a, b));
    CongRefl(Power(a, b), Abs(m));
    while true
      invariant b > 0 && Cong(r * Power(a, b), Power(a0, b0), Abs(m))
      decreases b
    {
      ghost var r0 := r;
      if b % 2 == 1 {
        r := (r * a) % m;
      }
      var a' := (a * a) % m;
      CongSelf(a * a, Abs(m));
      SameRemainder(r0 * a, m);
      SameRemainder(a * a, m);
      DigitDone(r0, a, b, Power(a0, b0), Abs(m), r, a');
      b := b / 2;
      if b == 0 {
        LastDigit(r, a');
        break;
      }
      a := a';
    }
  }

  lemma SameRemainder(x: int, m: int)
    requires m != 0
    ensures x % m == x % Abs(m) && 0 <= x % m < Abs(m)
  {
    var q, r := x / m, x % m;
    SignedProduct(q, m);
    DivModUnique(x, Abs(m), if m < 0 then -q else q, r);
  }

  lemma SignedProduct(q: int, m: int)
    ensures q * m == (if m < 0 then -q else q) * Abs(m)
  {}

  lemma LastDigit(r: int, a: int)
    ensures r * Power(a, 0) == r
  {}

  /** The power with an exponent of either sign. */
  ghost predicate IsPower(r: int, a: int, b: int, m: int) {
    if b >= 0 then Cong(r, Power(a, b), m) else Cong(r * Power(a, -b), 1, m)
  }

  /** Integer.pmod */
  method Pmod(a: int, b: int, m: int) returns (r: Result<int>)
    ensures m != 0 && b >= 0 ==> r.Ok?
    ensures m != 0 && b < 0 ==> (r.Ok? <==> Found(a, m))
    ensures m != 0 && r.Ok? ==> IsPower(r.value, a, b, Abs(m))
    ensures m != 0 && b != 0 && r.Ok? ==> 0 <= r.value < Abs(m)
    ensures m == 0 ==> r == if b == 0 then Ok(1) else if b < 0 && a != 1 then NotInvertible else DivisionByZero
  {
    hide Cong, Power;
    if b == 0 {
      PowerZeroth(a, Abs(m));
      return Ok(1);
    }
    var a', b' := a, b;
    if b < 0 {
      var inverse := InvMod(a, m);
      if !inverse.Ok? {
        return inverse;
      }
      a' := inverse.value;
      b' := -b;
    }
    if m == 0 {
      return DivisionByZero;
    }
    var p := PowerMod(a', b', m);
    if b < 0 {
      InversePower(p, a, a', b', Abs(m));
    }
    return Ok(p);
  }

  lemma PowerZeroth(a: int, m: int)
    ensures m > 0 ==> Cong(1, Power(a, 0), m)
  {}

  lemma InversePower(p: int, a: int, i: int, e: nat, m: int)
    requires Cong(a * i, 1, m) && Cong(p, Power(i, e), m)
    ensures Cong(p * Power(a, e), 1, m)
  {
    PowerBase(a, i, e);
    PowerCong(a * i, 1, e, m);
    PowerOne(e);
    CongPositive(p, Power(i, e), m);
    CongRefl(Power(a, e), m);
    CongMul(p, Power(i, e), Power(a, e), Power(a, e), m);
    MulSwap(Power(a, e), Power(i, e));
  }
}
