/** Every odd composite number is exposed by some base that is prime to it, and by at least half of all bases: so
    the strong probable primes to all bases are the primes, and each round with a base chosen at random halves the
    chance of an error. */
module CompositeWitness {
  import opened Limbs
  import opened Congruence
  import opened Fermat
  import opened Primality
  import opened StrongPrime

  // Numbers without common factor.

  /** The greatest common divisor of u and v as a combination of them. */
  lemma {:induction false} Bezout(u: nat, v: nat) returns (g: nat, x: int, y: int)
    requires u > 0 || v > 0
    ensures g >= 1 && g == x * u + y * v && Divides(g, u) && Divides(g, v)
    decreases v
  {
    if v == 0 {
      g, x, y := u, 1, 0;
      DividesSelf(g);
    } else {
      var q, r := u / v, u % v;
      var x', y';
      g, x', y' := Bezout(v, r);
      x, y := y', x' - y' * q;
      BezoutNumbers(x', y', u, v, q, r);
      DividesMul(g, v, q);
      DividesSub(g, v * q, -r) by {
        DividesMul(g, r, -1);
      }
    }
  }

  lemma BezoutNumbers(x: int, y: int, u: int, v: int, q: int, r: int)
    requires u == v * q + r
    ensures x * v + y * r == y * u + (x - y * q) * v
  {
    assert y * (v * q) == y * q * v;
  }

  /** n divides what two factors without common factor divide. */
  lemma BothDivide(u: int, v: int, x: int, y: int, z: int)
    requires x * u + y * v == 1 && Divides(u, z) && Divides(v, z)
    ensures Divides(u * v, z)
  {
    var i: int :| z == Mul(i, u);
    var j: int :| z == Mul(j, v);
    assert z == Mul(x * j + y * i, u * v) by {
      BothNumbers(u, v, x, y, z, i, j);
    }
  }

  lemma BothNumbers(u: int, v: int, x: int, y: int, z: int, i: int, j: int)
    requires x * u + y * v == 1 && z == i * u && z == j * v
    ensures z == (x * j + y * i) * (u * v)
  {
    calc {
      z;
      (x * u + y * v) * z;
      { MulDist(x * u, y * v, z); }
      x * u * (j * v) + y * v * (i * u);
      { Shuffle(x, u, j, v); Shuffle(y, v, i, u); MulSwap(u, v); }
      x * j * (u * v) + y * i * (u * v);
      { MulDist(x * j, y * i, u * v); }
      (x * j + y * i) * (u * v);
    }
  }

  lemma Shuffle(x: int, u: int, j: int, v: int)
    ensures x * u * (j * v) == x * j * (u * v)
  {
    MulAssoc(x * u, j, v);
    MulAssoc(x * j, u, v);
    assert x * u * j == x * j * u;
  }

  lemma CongFactor(a: int, b: int, u: int, n: int)
    requires Cong(a, b, n) && u > 0 && Divides(u, n)
    ensures Cong(a, b, u)
  {
    DividesDifference(a, b, n);
    DividesTrans(u, n, a - b);
    DividesDifference(a, b, u);
  }

  // Bases.

  lemma {:induction false} SquaresCong(n: int, a: int, b: int, d: nat, i: nat)
    requires Cong(a, b, n)
    ensures Cong(Squares(a, d, i), Squares(b, d, i), n)
  {
    if i == 0 {
      PowerCong(a, b, d, n);
    } else {
      SquaresCong(n, a, b, d, i - 1);
      CongMul(Squares(a, d, i - 1), Squares(b, d, i - 1), Squares(a, d, i - 1), Squares(b, d, i - 1), n);
    }
  }

  /** Only the remainder of the base matters. */
  lemma StrongCong(n: int, a: int, b: int, d: nat, s: nat)
    requires Cong(a, b, n) && StrongWith(n, a, d, s)
    ensures StrongWith(n, b, d, s)
  {
    hide Squares, Cong;
    forall i: nat
      ensures Cong(Squares(a, d, i), 1, n) ==> Cong(Squares(b, d, i), 1, n)
      ensures Cong(Squares(a, d, i), -1, n) ==> Cong(Squares(b, d, i), -1, n)
    {
      SquaresCong(n, a, b, d, i);
      CongSwap(Squares(a, d, i), Squares(b, d, i), n);
      if Cong(Squares(a, d, i), 1, n) {
        CongTrans(Squares(b, d, i), Squares(a, d, i), 1, n);
      }
      if Cong(Squares(a, d, i), -1, n) {
        CongTrans(Squares(b, d, i), Squares(a, d, i), -1, n);
      }
    }
  }

  lemma CongSwap(a: int, b: int, n: int)
    requires Cong(a, b, n)
    ensures Cong(b, a, n)
  {}

  /** a is prime to n and not one of its strong bases. */
  ghost predicate Exposes(n: int, a: int)
    requires n >= 2
  {
    Invertible(a, n) && !Strong(n, a)
  }

  /** Multiplying by b leads from every strong base to one that is not. */
  ghost predicate Separates(n: int, b: int)
    requires n >= 2
  {
    Invertible(b, n) && forall a: int :: Strong(n, a) ==> !Strong(n, a * b)
  }

  lemma {:induction false} SquaresMul(a: int, b: int, d: nat, i: nat)
    ensures Squares(a * b, d, i) == Squares(a, d, i) * Squares(b, d, i)
  {
    if i == 0 {
      PowerBase(a, b, d);
    } else {
      SquaresMul(a, b, d, i - 1);
      var x, y := Squares(a, d, i - 1), Squares(b, d, i - 1);
      Interleave(x, y, x, y);
    }
  }

  // A factor that occurs twice.

  /** When n divides m * m, the powers of 1 + m are 1 + e * m. */
  lemma {:induction false} PowerLinear(n: int, m: int, e: nat)
    requires n > 0 && Divides(n, m * m)
    ensures Cong(Power(1 + m, e), 1 + e * m, n)
  {
    if e == 0 {
      CongRefl(1, n);
    } else {
      PowerLinear(n, m, e - 1);
      CongRefl(1 + m, n);
      CongMul(1 + m, 1 + m, Power(1 + m, e - 1), 1 + (e - 1) * m, n);
      assert (1 + m) * (1 + (e - 1) * m) - (1 + e * m) == (e - 1) * (m * m) by {
        LinearNumbers(m, e);
      }
      DividesMul(n, m * m, e - 1);
      DividesDifference((1 + m) * (1 + (e - 1) * m), 1 + e * m, n);
      CongTrans(Power(1 + m, e), (1 + m) * (1 + (e - 1) * m), 1 + e * m, n);
    }
  }

  lemma LinearNumbers(m: int, e: int)
    ensures (1 + m) * (1 + (e - 1) * m) - (1 + e * m) == (e - 1) * (m * m)
  {
    MulExpand(1, m, 1, (e - 1) * m);
    MulDist(e, 1, m);
    assert m * ((e - 1) * m) == (e - 1) * (m * m);
  }

  /** If g divides n twice, 1 + n / g is a base whose power n - 1 is not one. */
  lemma TwiceSeparates(n: int, g: int, k: int)
    requires n >= 3 && n % 2 == 1 && g >= 2 && k >= 1 && n == g * g * k
    ensures Separates(n, 1 + g * k)
  {
    var m := g * k;
    TwiceParts(n, g, k);
    NotFermat(n, m);
    var b := 1 + m;
    assert b * (1 - m) - 1 == -1 * (m * m);
    DividesMul(n, m * m, -1);
    assert Divides(n, b * (1 - m) - 1);
    forall a: int | Strong(n, a)
      ensures !Strong(n, a * b)
    {
      if Strong(n, a * b) {
        BothFermat(n, a, b);
      }
    }
  }

  /** Of two factors whose product is a strong base, both are Fermat bases if one is strong. */
  lemma BothFermat(n: int, a: int, b: int)
    requires n >= 3 && n % 2 == 1 && Strong(n, a) && Strong(n, a * b)
    ensures Cong(Power(b, n - 1), 1, n)
  {
    StrongFermat(n, a);
    StrongFermat(n, a * b);
    var x, y := Power(a, n - 1), Power(b, n - 1);
    PowerBase(a, b, n - 1);
    CongRefl(y, n);
    CongMul(x, 1, y, y, n);
    CongSwap(x * y, y, n);
    CongTrans(y, x * y, 1, n);
  }

  lemma TwiceParts(n: int, g: int, k: int)
    requires g >= 2 && k >= 1 && n == g * g * k
    ensures 0 < g * k < n && Divides(n, g * k * (g * k))
  {
    var m := g * k;
    MulMono(1, g, k);
    MulAssoc(g, g, k);
    MulMono(2, g, m);
    calc {
      m * m;
      { Shuffle(g, k, g, k); }
      g * g * (k * k);
      { MulAssoc(g * g, k, k); }
      g * g * k * k;
      { MulSwap(n, k); }
      Mul(k, n);
    }
  }

  lemma StrongFermat(n: int, a: int)
    requires n >= 3 && n % 2 == 1 && Strong(n, a)
    ensures Cong(Power(a, n - 1), 1, n)
  {
    OddSplit(n - 1);
    OddPartOdd(n - 1);
    StrongMeans(n, a, OddPart(n - 1), Twos(n - 1));
  }

  lemma NotFermat(n: int, m: int)
    requires 0 < m < n && Divides(n, m * m)
    ensures !Cong(Power(1 + m, n - 1), 1, n)
  {
    PowerLinear(n, m, n - 1);
    var x := 1 + (n - 1) * m;
    if Cong(Power(1 + m, n - 1), 1, n) {
      CongSwap(Power(1 + m, n - 1), x, n);
      CongTrans(x, Power(1 + m, n - 1), 1, n);
      DividesDifference(x, 1, n);
      DividesSelf(n);
      DividesMul(n, n, m);
      DividesSub(n, n * m, (n - 1) * m);
      assert n * m - (n - 1) * m == m;
      DividesSmall(n, m);
    }
  }

  // Two factors without common factor.

  /** Minus one is a power d * 2^i modulo n. */
  ghost predicate HasRoot(n: int, d: nat, i: nat) {
    exists x: int :: Cong(Squares(x, d, i), -1, n)
  }

  lemma RootAt(n: int, x: int, d: nat, i: nat)
    requires Cong(Squares(x, d, i), -1, n)
    ensures HasRoot(n, d, i)
  {}

  lemma FirstRoot(n: int, d: nat)
    requires n > 0 && d % 2 == 1
    ensures HasRoot(n, d, 0)
  {
    PowerMinusOne(d / 2);
    CongRefl(-1, n);
    assert Cong(Squares(-1, d, 0), -1, n);
  }

  /** The last exponent below s with such a root. */
  lemma {:induction false} LastRoot(n: int, d: nat, i: nat, s: nat) returns (k: nat)
    requires i < s && HasRoot(n, d, i)
    ensures i <= k < s && HasRoot(n, d, k) && forall j :: k < j < s ==> !HasRoot(n, d, j)
    decreases s - i
  {
    hide HasRoot;
    if j :| i < j < s && HasRoot(n, d, j) {
      k := LastRoot(n, d, j, s);
    } else {
      k := i;
    }
  }

  lemma {:induction false} SquaresOfOne(d: nat, i: nat)
    ensures Squares(1, d, i) == 1
  {
    if i == 0 {
      PowerOne(d);
    } else {
      SquaresOfOne(d, i - 1);
    }
  }

  /** A base that is x modulo u and one modulo v. */
  lemma Mixed(x: int, u: int, v: int, p: int, q: int)
    requires u > 0 && v > 0 && p * u + q * v == 1
    ensures Cong(x * (q * v) + p * u, x, u) && Cong(x * (q * v) + p * u, 1, v)
  {
    var b := x * (q * v) + p * u;
    assert b == x + (p - x * p) * u by {
      assert x * (q * v) == x * (1 - p * u) == x - x * (p * u);
      assert (p - x * p) * u == p * u - x * (p * u) by { MulDist(p, x * p, u); MulAssoc(x, p, u); }
    }
    assert b == 1 + (x * q - q) * v by {
      assert p * u == 1 - q * v;
      assert (x * q - q) * v == x * (q * v) - q * v by { MulDist(x * q, q, v); MulAssoc(x, q, v); }
    }
    CongWitness(b, x, p - x * p, u);
    CongWitness(b, 1, x * q - q, v);
  }

  /** When no later entry of any base is minus one modulo n, the k-th entry of every strong base is one or minus
      one. */
  lemma EntryOfStrong(n: int, a: int, d: nat, s: nat, k: nat)
    requires n >= 3 && k < s && StrongWith(n, a, d, s) && forall j :: k < j < s ==> !HasRoot(n, d, j)
    ensures Cong(Squares(a, d, k), 1, n) || Cong(Squares(a, d, k), -1, n)
  {
    hide Cong, Squares;
    if Cong(Squares(a, d, 0), 1, n) {
      OnesStay(n, a, d, 0, k);
    } else {
      var i := if Cong(Squares(a, d, 0), -1, n) then 0 else
        var i :| 0 <= i < s && Cong(Squares(a, d, i), -1, n); i;
      if i > k {
        RootAt(n, a, d, i);
      } else if i < k {
        SquareOfMinusOne(n, a, d, i);
        OnesStay(n, a, d, i + 1, k);
      }
    }
  }

  /** What is minus one modulo u and one modulo v is neither modulo n. */
  lemma MixedEntry(n: int, u: int, v: int, x: int)
    requires n >= 3 && u >= 3 && v >= 3 && Divides(u, n) && Divides(v, n) && Cong(x, -1, u) && Cong(x, 1, v)
    ensures !Cong(x, 1, n) && !Cong(x, -1, n)
  {
    if Cong(x, 1, n) {
      CongFactor(x, 1, u, n);
      OneNotMinusOne(u, x);
    }
    if Cong(x, -1, n) {
      CongFactor(x, -1, v, n);
      OneNotMinusOne(v, x);
    }
  }

  /** If x and x * y are one or minus one, so is y. */
  lemma SignCancelled(n: int, x: int, y: int)
    requires (Cong(x, 1, n) || Cong(x, -1, n)) && (Cong(x * y, 1, n) || Cong(x * y, -1, n))
    ensures Cong(y, 1, n) || Cong(y, -1, n)
  {
    CongPositive(x * y, if Cong(x * y, 1, n) then 1 else -1, n);
    var e := if Cong(x, 1, n) then 1 else -1;
    var f := if Cong(x * y, 1, n) then 1 else -1;
    CongRefl(y, n);
    CongMul(x, e, y, y, n);
    CongSwap(x * y, e * y, n);
    CongTrans(e * y, x * y, f, n);
    CongRefl(e, n);
    CongMul(e, e, e * y, f, n);
    assert e * (e * y) == y;
  }

  /** Some power of b is one modulo n, so b is prime to n. */
  lemma MixedInvertible(n: int, u: int, v: int, p: int, q: int, b: int, d: nat, k: nat)
    requires u > 0 && v > 0 && n == u * v && p * u + q * v == 1 && d > 0
    requires Cong(Squares(b, d, k), -1, u) && Cong(Squares(b, d, k), 1, v)
    ensures Invertible(b, n)
  {
    var x := Squares(b, d, k);
    CongMul(x, -1, x, -1, u);
    CongMul(x, 1, x, 1, v);
    DividesDifference(x * x, 1, u);
    DividesDifference(x * x, 1, v);
    BothDivide(u, v, p, q, x * x - 1);
    SquaresPower(b, d, k + 1);
    var e := d * P2(k + 1);
    assert e >= 1 by { MulMono(1, d, P2(k + 1)); }
    assert x * x == b * Power(b, e - 1);
    assert Divides(n, b * Power(b, e - 1) - 1);
  }

  lemma CoprimeSeparates(n: int, u: int, v: int, p: int, q: int) returns (b: int)
    requires n % 2 == 1 && n == u * v && u >= 3 && v >= 3 && p * u + q * v == 1
    ensures n >= 3 && Separates(n, b)
  {
    assert n >= 3 by { MulMono(1, u, v); }
    var d, s := OddPart(n - 1), Twos(n - 1);
    OddPartOdd(n - 1);
    TwosPositive(n);
    hide OddPart, Twos, Cong, Squares, Invertible, StrongWith;
    FirstRoot(n, d);
    var k := LastRoot(n, d, 0, s);
    var x: int :| Cong(Squares(x, d, k), -1, n);
    b := x * (q * v) + p * u;
    Mixed(x, u, v, p, q);
    FactorsDivide(n, u, v);
    CongFactor(Squares(x, d, k), -1, u, n);
    SquaresCong(u, b, x, d, k);
    CongTrans(Squares(b, d, k), Squares(x, d, k), -1, u);
    SquaresCong(v, b, 1, d, k);
    SquaresOfOne(d, k);
    MixedEntry(n, u, v, Squares(b, d, k));
    MixedInvertible(n, u, v, p, q, b, d, k);
    forall a: int | Strong(n, a)
      ensures !Strong(n, a * b)
    {
      EntryOfStrong(n, a, d, s, k);
      SquaresMul(a, b, d, k);
      if Strong(n, a * b) {
        EntryOfStrong(n, a * b, d, s, k);
        SignCancelled(n, Squares(a, d, k), Squares(b, d, k));
      }
    }
  }

  lemma TwosPositive(n: int)
    requires n >= 3 && n % 2 == 1
    ensures Twos(n - 1) >= 1
  {}

  lemma FactorsDivide(n: int, u: int, v: int)
    requires n == u * v
    ensures Divides(u, n) && Divides(v, n)
  {
    DividesSelf(u);
    DividesSelf(v);
    DividesMul(u, u, v);
    DividesMul(v, v, u);
  }

  // Composite numbers.

  lemma Factored(n: int) returns (u: int, v: int)
    requires n >= 2 && !Prime(n) && n % 2 == 1
    ensures u >= 3 && v >= 3 && n == u * v
  {
    var d: int :| 2 <= d < n && n % d == 0;
    u, v := d, n / d;
    assert n == v * d;
    MulSwap(v, d);
    if v <= 1 {
      MulMono(v, 1, d);
    }
    OddFactor(n, u, v);
    OddFactor(n, v, u);
  }

  lemma OddFactor(n: int, u: int, v: int)
    requires n == u * v && n % 2 == 1
    ensures u != 2
  {}

  lemma Separator(n: int) returns (b: int)
    requires n >= 2 && n % 2 == 1 && !Prime(n)
    ensures Separates(n, b)
  {
    var u, v := Factored(n);
    var g, p, q := Bezout(u, v);
    if g == 1 {
      b := CoprimeSeparates(n, u, v, p, q);
    } else {
      var i: int :| u == Mul(i, g);
      var j: int :| v == Mul(j, g);
      b := 1 + g * (i * j);
      TwiceNumbers(u, v, g, i, j);
      TwiceSeparates(n, g, i * j);
    }
  }

  /** Every odd composite number has a base between 1 and itself, prime to it, to which it is not a strong probable
      prime. */
  lemma Witness(n: int) returns (a: int)
    requires n >= 2 && n % 2 == 1 && !Prime(n)
    ensures 1 < a < n && Exposes(n, a)
  {
    var b := Separator(n);
    OneStrong(n);
    assert !Strong(n, 1 * b);
    a := b % n;
    Reduced(n, b);
  }

  lemma TwiceNumbers(u: int, v: int, g: int, i: int, j: int)
    requires u == i * g && v == j * g && u >= 1 && v >= 1 && g >= 1
    ensures u * v == g * g * (i * j) && i * j >= 1
  {
    Shuffle(i, g, j, g);
    MulSwap(i * j, g * g);
    if i <= 0 {
      MulMono(i, 0, g);
    }
    if j <= 0 {
      MulMono(j, 0, g);
    }
    MulMono(1, i, j);
  }

  lemma Reduced(n: int, b: int)
    requires n >= 3 && Exposes(n, b)
    ensures 1 < b % n < n && Exposes(n, b % n)
  {
    var a := b % n;
    CongSelf(b, n);
    if Strong(n, a) {
      StrongCong(n, a, b, OddPart(n - 1), Twos(n - 1));
    }
    var r: int :| Divides(n, b * r - 1);
    CongRefl(r, n);
    CongMul(a, b, r, r, n);
    DividesDifference(b * r, 1, n);
    CongTrans(a * r, b * r, 1, n);
    DividesDifference(a * r, 1, n);
    assert Invertible(a, n);
    if a == 0 {
      DividesIs(n, 0 * r - 1);
      DivModUnique(-1, n, -1, n - 1);
    }
    if a == 1 {
      OneStrong(n);
    }
  }

  lemma OneStrong(n: int)
    requires n >= 2
    ensures Strong(n, 1)
  {
    PowerOne(OddPart(n - 1));
    CongRefl(1, n);
  }

  /** So an odd number is prime if and only if it is a strong probable prime to every base prime to it. */
  lemma PrimeIffStrong(n: int)
    requires n >= 3 && n % 2 == 1
    ensures Prime(n) <==> forall a: int :: Invertible(a, n) ==> Strong(n, a)
  {
    if Prime(n) {
      forall a: int | Invertible(a, n)
        ensures Strong(n, a)
      {
        UnitNotMultiple(n, a);
        PrimeStrong(n, a);
      }
    } else {
      var a := Witness(n);
      assert Invertible(a, n) && !Strong(n, a);
    }
  }

  lemma UnitNotMultiple(n: int, a: int)
    requires n >= 2 && Invertible(a, n)
    ensures !Divides(n, a)
  {
    var r: int :| Divides(n, a * r - 1);
    if Divides(n, a) {
      DividesMul(n, a, r);
      DividesSub(n, a * r, a * r - 1);
      DividesSmall(n, 1);
    }
  }

  // Counting bases.

  /** The bases below n to which n is a strong probable prime. */
  ghost function StrongBases(n: int): set<int>
    requires n >= 2
  {
    set a | 1 <= a < n && Strong(n, a)
  }

  /** a * b modulo n */
  ghost function Times(a: int, b: int, n: int): int
    requires n >= 1
  {
    (a * b) % n
  }

  /** The members times b. */
  ghost function Shifted(bases: set<int>, b: int, n: int): set<int>
    requires n >= 1
  {
    set a | a in bases :: Times(a, b, n)
  }

  /** Multiplication by a unit keeps remainders apart. */
  lemma UnitCancelled(n: int, x: int, y: int, b: int)
    requires n >= 2 && 0 <= x < n && 0 <= y < n && Invertible(b, n) && Times(x, b, n) == Times(y, b, n)
    ensures x == y
  {
    var r: int :| Divides(n, b * r - 1);
    DividesDifference(b * r, 1, n);
    MulSwap(x, b);
    MulSwap(y, b);
    CongCancel(b, r, x, y, n);
    DivModUnique(x, n, 0, x);
    DivModUnique(y, n, 0, y);
  }

  lemma Pick<T>(s: set<T>) returns (x: T)
    requires |s| > 0
    ensures x in s
  {
    x :| x in s;
  }

  lemma {:induction false} ShiftedSize(bases: set<int>, b: int, n: int)
    requires n >= 2 && Invertible(b, n) && forall a :: a in bases ==> 0 <= a < n
    ensures |Shifted(bases, b, n)| == |bases|
    decreases |bases|
  {
    hide Invertible, Times;
    if |bases| > 0 {
      var a := Pick(bases);
      var rest := bases - {a};
      ShiftedSize(rest, b, n);
      var z := Times(a, b, n);
      if z in Shifted(rest, b, n) {
        var c :| c in rest && Times(c, b, n) == z;
        UnitCancelled(n, a, c, b);
      }
      assert Shifted(bases, b, n) == Shifted(rest, b, n) + {z};
    }
  }

  lemma ShiftedApart(n: int, b: int, a: int)
    requires n >= 3 && Separates(n, b) && 1 <= a < n && Strong(n, a)
    ensures 1 <= Times(a, b, n) < n && !Strong(n, Times(a, b, n))
  {
    var c := (a * b) % n;
    CongSelf(a * b, n);
    if Strong(n, c) {
      StrongCong(n, c, a * b, OddPart(n - 1), Twos(n - 1));
    }
    if c == 0 {
      DivModUnique(0, n, 0, 0);
      MulUnit(b);
      UnitCancelled(n, a, 0, b);
    }
  }

  /** An odd composite number is a strong probable prime to at most half of the bases below it. */
  lemma HalfOfBases(n: int)
    requires n >= 3 && n % 2 == 1 && !Prime(n)
    ensures 2 * |StrongBases(n)| <= n - 1
  {
    var b := Separator(n);
    var strong := StrongBases(n);
    var other := Shifted(strong, b, n);
    hide Strong, Invertible, Times;
    ShiftedSize(strong, b, n);
    forall c | c in other
      ensures 1 <= c < n && c !in strong
    {
      var a :| a in strong && Times(a, b, n) == c;
      ShiftedApart(n, b, a);
    }
    var below := UpTo(n - 1);
    SubsetSize(strong + other, below);
  }
}
