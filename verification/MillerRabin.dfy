/** The primality test of the calculator (qjscalc.js): trial division by small primes, then the Miller-Rabin
    test. */
module MillerRabin {
  import opened Limbs
  import opened Congruence
  import opened Fermat
  import opened PrimeTable
  import opened Primality
  import opened StrongPrime

  // The test.

  ghost predicate StrongToAll(n: int, t: int)
    requires n >= 2
  {
    forall j: nat :: j < 95 && j < t ==> Strong(n, Base(j))
  }

  function Base(j: nat): (r: int)
    requires j < 95
    ensures r >= 2
  {
    ListLength();
    ListAt(j);
    SmallPrimes[j]
  }

  lemma MinusOneIs(r: int, n: int, x: int)
    requires n >= 2 && 0 <= r < n && Cong(r, x, n)
    ensures r == 1 <==> Cong(x, 1, n)
    ensures r == n - 1 <==> Cong(x, -1, n)
  {
    DivModUnique(r, n, 0, r);
    DivModUnique(1, n, 0, 1);
    DivModUnique(-1, n, -1, n - 1);
  }

  lemma NextSquare(r: int, n: int, a: int, d: nat, i: nat)
    requires n >= 2 && i >= 1 && Cong(r, Squares(a, d, i - 1), n)
    ensures 0 <= (r * r) % n < n && Cong((r * r) % n, Squares(a, d, i), n)
  {
    var x := Squares(a, d, i - 1);
    CongMul(r, x, r, x, n);
    CongSelf(r * r, n);
    CongTrans((r * r) % n, r * r, x * x, n);
  }

  /** One base: the inner loop. */
  method PassesBase(n: int, a: int, d: nat, s: nat) returns (ok: bool)
    requires n >= 2 && d > 0 && d == OddPart(n - 1) && s == Twos(n - 1)
    ensures ok <==> Strong(n, a)
  {
    hide Cong, Squares, OddPart, Twos;
    var r := PowerMod(a, d, n);
    SquaresStart(a, d);
    MinusOneIs(r, n, Squares(a, d, 0));
    if r == 1 || r == n - 1 {
      return true;
    }
    var i := 1;
    while i < s
      invariant 1 <= i && 0 <= r < n && Cong(r, Squares(a, d, i - 1), n)
      invariant i <= s || (i == 1 && s == 0)
      invariant forall k :: 0 <= k < i ==> !Cong(Squares(a, d, k), -1, n)
      invariant !Cong(Squares(a, d, 0), 1, n)
    {
      NextSquare(r, n, a, d, i);
      r := (r * r) % n;
      MinusOneIs(r, n, Squares(a, d, i));
      if r == 1 {
        LongEnough(n, s);
        forall k | i <= k < s
          ensures !Cong(Squares(a, d, k), -1, n)
        {
          OnesStay(n, a, d, i, k);
        }
        return false;
      }
      if r == n - 1 {
        return true;
      }
      i := i + 1;
    }
    return false;
  }

  lemma SquaresStart(a: int, d: nat)
    ensures Squares(a, d, 0) == Power(a, d)
  {}

  lemma LongEnough(n: int, s: nat)
    requires n >= 2 && s == Twos(n - 1) && s >= 1
    ensures n >= 3
  {}

  /** miller_rabin_test: true exactly for the strong probable primes to the first bases. */
  method MillerRabinTest(n: int, t: int) returns (ok: bool)
    requires n >= 2
    ensures ok <==> StrongToAll(n, t)
  {
    hide Strong, Base, SmallPrimes;
    var d: nat, s := n - 1, 0;
    while d % 2 == 0
      invariant d > 0 && OddPart(d) == OddPart(n - 1) && s + Twos(d) == Twos(n - 1)
      decreases d
    {
      d := d / 2;
      s := s + 1;
    }
    ListLength();
    var t' := if |SmallPrimes| < t then |SmallPrimes| else t;
    var j := 0;
    while j < t'
      invariant 0 <= j && (j <= t' || j == 0)
      invariant forall k :: 0 <= k < j ==> Strong(n, Base(k))
    {
      BaseIs(j);
      var passes := PassesBase(n, SmallPrimes[j], d, s);
      if !passes {
        return false;
      }
      j := j + 1;
    }
    return true;
  }

  lemma BaseIs(j: nat)
    requires j < 95
    ensures |SmallPrimes| == 95 && Base(j) == SmallPrimes[j]
  {
    ListLength();
  }

  /** For a prime the test fails exactly when one of the bases is the number itself. */
  lemma PrimePasses(n: int, t: int)
    requires Prime(n)
    ensures n >= 2
    ensures StrongToAll(n, t) <==> forall j: nat :: j < 95 && j < t ==> Base(j) != n
  {
    PrimeRange(n);
    hide Strong, Base, SmallPrimes, Divides, Prime;
    forall j: nat | j < 95 && j < t
      ensures Strong(n, Base(j)) <==> Base(j) != n
    {
      BaseIs(j);
      ListAt(j);
      PrimeDivides(n, Base(j));
      if Base(j) == n {
        MultipleNotStrong(n, Base(j));
      } else {
        PrimeStrong(n, Base(j));
      }
    }
  }

  /** Tried on a prime that is one of its own bases, the test fails. */
  lemma OwnBaseFails()
    ensures Prime(3) && !StrongToAll(3, 2)
  {
    TrialDecides(3);
    PrimePasses(3, 2);
    assert Base(1) == 3;
  }

  lemma PrimeRange(n: int)
    requires Prime(n)
    ensures n >= 2
  {}

  lemma PrimeDivides(n: int, a: int)
    requires Prime(n) && Prime(a)
    ensures Divides(n, a) <==> n == a
  {
    DividesIs(n, a);
    if n > a {
      DividesSmall(n, a);
    }
    DividesSelf(n);
  }

  // The whole test.

  datatype Rounds = Default | Rounds(t: int)

  /** A prime below 500 divides n. */
  ghost predicate HasSmallFactor(n: int) {
    exists q: int :: 2 <= q < 500 && Prime(q) && n % q == 0
  }

  /** No small prime divides n. */
  ghost predicate NoSmallFactor(n: int, count: nat)
    requires count <= 95
  {
    forall j :: 0 <= j < count ==> n % Base(j) != 0
  }

  lemma BaseRange(j: nat)
    requires j < 95
    ensures 2 <= Base(j) < 500 && Prime(Base(j))
  {
    BaseIs(j);
    hide SmallPrimes;
    ListAt(j);
  }

  lemma InList(n: int) returns (j: nat)
    requires 2 <= n < 500 && Prime(n)
    ensures j < 95 && Base(j) == n
  {
    ListLength();
    hide Prime;
    ListComplete(n);
    hide SmallPrimes;
    j :| 0 <= j < |SmallPrimes| && SmallPrimes[j] == n;
    BaseIs(j);
  }

  /** A number below 500 has a prime factor among the small primes. */
  lemma SmallPrimeFactor(d: int) returns (j: nat)
    requires 2 <= d < 500
    ensures j < 95 && Divides(Base(j), d)
  {
    if Prime(d) {
      j := InList(d);
      DividesSelf(d);
    } else {
      TrialDecides(d);
      var q := TrialFactor(d);
      DividesIs(q, d);
      TrialDecides(q);
      j := InList(q);
    }
  }

  lemma TrialFactor(d: int) returns (q: int)
    requires TrialDivisible(d)
    ensures 2 <= q <= 19 && d % q == 0 && !TrialDivisible(q)
  {
    q := if d % 2 == 0 then 2 else if d % 3 == 0 then 3 else if d % 5 == 0 then 5 else if d % 7 == 0 then 7
      else if d % 11 == 0 then 11 else if d % 13 == 0 then 13 else if d % 17 == 0 then 17 else 19;
  }

  /** Below the square of the largest small prime, trial division decides. */
  lemma TrialEnough(n: int)
    requires 2 <= n < 499 * 499 && NoSmallFactor(n, 95)
    ensures Prime(n)
  {
    hide Base;
    if d: int :| 2 <= d < n && n % d == 0 {
      var e := SmallerFactor(n, d);
      var j := SmallPrimeFactor(e);
      DividesIs(e, n);
      DividesTrans(Base(j), e, n);
      BaseRange(j);
      DividesIs(Base(j), n);
      assert false;
    }
  }

  lemma SmallerFactor(n: int, d: int) returns (e: int)
    requires 2 <= d < n < 499 * 499 && n % d == 0
    ensures 2 <= e < 500 && n % e == 0
  {
    if d < 500 {
      return d;
    }
    e := n / d;
    assert n == e * d;
    if e >= 500 {
      MulMono(500, e, d);
    }
    if e <= 1 {
      MulMono(e, 1, d);
    }
    MulSwap(e, d);
    DivModUnique(n, e, d, 0);
  }

  lemma LastBase()
    ensures Base(94) == 499
  {}

  /** a^(n - 1) is one, and for every way to write n - 1 as d * 2^s with odd d the chain of squares from a^d has
      no other square roots of one than one and minus one. */
  ghost predicate LooksPrime(n: int, a: int)
    requires n >= 1
  {
    Cong(Power(a, n - 1), 1, n)
    && forall d: nat, s: nat :: d % 2 == 1 && n - 1 == Mul(d, P2(s)) ==> TrivialRoots(n, a, d, s)
  }

  /** Integer.isPrime: never rejects a prime, and accepts another number only if it has 499 * 499 or more, no
      prime factor below 500, and is a strong probable prime to the bases tried: the first 64 primes, which are
      those up to 311, or as many as asked for, but not more than the 95 primes below 500. */
  method IsPrime(n: int, rounds: Rounds) returns (ok: bool)
    ensures Prime(n) ==> ok
    ensures n < 499 * 499 ==> (ok <==> Prime(n))
    ensures n >= 499 * 499 ==> (ok <==> !HasSmallFactor(n) && StrongToAll(n, if rounds.Default? then 64 else rounds.t))
    ensures n >= 499 * 499 && ok && rounds.Default? ==> forall a :: 2 <= a <= 311 && Prime(a) ==> LooksPrime(n, a)
    ensures n >= 499 * 499 && ok && rounds.Rounds? ==>
              forall j: nat :: j < 95 && j < rounds.t ==> LooksPrime(n, Base(j))
  {
    hide SmallPrimes, Base, Prime, StrongToAll;
    if n <= 1 {
      NotPrime(n);
      return false;
    }
    ListLength();
    var n1 := |SmallPrimes|;
    var i, d := 0, 0;
    while i < n1
      invariant 0 <= i <= n1 && NoSmallFactor(n, i)
      invariant i > 0 ==> d == Base(i - 1) && d < n
    {
      BaseIs(i);
      BaseRange(i);
      d := SmallPrimes[i];
      if d == n {
        return true;
      }
      if d > n {
        BetweenPrimes(n, i);
        return false;
      }
      if n % d == 0 {
        HasFactor(n, d);
        return false;
      }
      i := i + 1;
    }
    LastBase();
    if n < d * d {
      TrialEnough(n);
      return true;
    }
    SmallFactors(n);
    // the default number of rounds
    var t := if rounds.Default? then 64 else rounds.t;
    if Prime(n) {
      PrimeAccepted(n, t);
    }
    ok := MillerRabinTest(n, t);
    if ok {
      StrongLooksPrime(n, t);
      if rounds.Default? {
        SmallBases(n);
      }
    }
  }

  lemma SmallFactors(n: int)
    ensures NoSmallFactor(n, 95) <==> !HasSmallFactor(n)
  {
    hide Prime, Base;
    if j: nat :| j < 95 && n % Base(j) == 0 {
      BaseRange(j);
    }
    if q: int :| 2 <= q < 500 && Prime(q) && n % q == 0 {
      var j := InList(q);
    }
  }

  lemma StrongLooksPrime(n: int, t: int)
    requires n >= 3 && StrongToAll(n, t) && NoSmallFactor(n, 95)
    ensures forall j: nat :: j < 95 && j < t ==> LooksPrime(n, Base(j))
  {
    FirstBase();
    assert n % Base(0) != 0;
    hide Base, Strong, TrivialRoots, Cong;
    forall j: nat | j < 95 && j < t
      ensures LooksPrime(n, Base(j))
    {
      var a := Base(j);
      OddSplit(n - 1);
      OddPartOdd(n - 1);
      StrongMeans(n, a, OddPart(n - 1), Twos(n - 1));
      forall d: nat, s: nat | d % 2 == 1 && n - 1 == Mul(d, P2(s))
        ensures TrivialRoots(n, a, d, s)
      {
        StrongMeans(n, a, d, s);
      }
    }
  }

  lemma FirstBase()
    ensures Base(0) == 2
  {}

  lemma SmallBases(n: int)
    requires n >= 1 && forall j: nat :: j < 95 && j < 64 ==> LooksPrime(n, Base(j))
    ensures forall a :: 2 <= a <= 311 && Prime(a) ==> LooksPrime(n, a)
  {
    Base64();
    hide Prime, Base, LooksPrime;
    forall a | 2 <= a <= 311 && Prime(a)
      ensures LooksPrime(n, a)
    {
      var j := InList(a);
      if j >= 64 {
        BaseIs(j);
        BaseIs(64);
        if j > 64 {
          ListSorted(64, j);
        }
      }
    }
  }

  lemma Base64()
    ensures Base(63) == 311 && Base(64) == 313
  {}

  lemma NotPrime(n: int)
    requires n <= 1
    ensures !Prime(n)
  {}

  lemma HasFactor(n: int, d: int)
    requires 2 <= d < n && n % d == 0
    ensures !Prime(n)
  {}

  /** A number between small primes that no smaller one divides does not exist. */
  lemma BetweenPrimes(n: int, i: nat)
    requires n >= 2 && i < 95 && n < Base(i) && NoSmallFactor(n, i)
    ensures !Prime(n) && n < 500
  {
    hide Base, SmallPrimes;
    BaseRange(i);
    if Prime(n) {
      var k := InList(n);
      BaseIs(i);
      BaseIs(k);
      if i < k {
        ListSorted(i, k);
      } else {
        DivModUnique(n, n, 1, 0);
      }
    }
  }

  lemma PrimeAccepted(n: int, t: int)
    requires n >= 500 && Prime(n)
    ensures StrongToAll(n, t)
  {
    hide Base, StrongToAll;
    forall j: nat | j < 95 && j < t
      ensures Base(j) != n
    {
      BaseRange(j);
    }
    PrimePasses(n, t);
  }
}
