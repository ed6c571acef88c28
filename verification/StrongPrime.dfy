/** Strong probable primes (section 4.2.3 of the Handbook of Applied Cryptography): what the Miller-Rabin test
    decides about one base. */
module StrongPrime {
  import opened Limbs
  import opened Congruence
  import opened Fermat

  /** d without its factors of two, and their number. */
  function OddPart(d: nat): nat {
    if d > 0 && d % 2 == 0 then OddPart(d / 2) else d
  }

  function Twos(d: nat): nat {
    if d > 0 && d % 2 == 0 then Twos(d / 2) + 1 else 0
  }

  lemma {:induction false} OddSplit(d: nat)
    ensures d == OddPart(d) * P2(Twos(d))
  {
    if d > 0 && d % 2 == 0 {
      OddSplit(d / 2);
      assert 2 * (OddPart(d / 2) * P2(Twos(d / 2))) == OddPart(d / 2) * (2 * P2(Twos(d / 2)));
    }
  }

  /** a to the power d * 2^i */
  ghost function Squares(a: int, d: nat, i: nat): int {
    if i == 0 then Power(a, d) else Squares(a, d, i - 1) * Squares(a, d, i - 1)
  }

  lemma {:induction false} SquaresPower(a: int, d: nat, i: nat)
    ensures d * P2(i) >= 0 && Squares(a, d, i) == Power(a, d * P2(i))
  {
    MulMono(0, d, P2(i));
    if i > 0 {
      SquaresPower(a, d, i - 1);
      var e := d * P2(i - 1);
      assert d * P2(i) == e + e by { assert d * (2 * P2(i - 1)) == 2 * (d * P2(i - 1)); }
      PowerAdd(a, e, e);
    }
  }

  /** n is a strong probable prime to the base a (section 4.2.3 of the Handbook of Applied Cryptography). */
  ghost predicate Strong(n: int, a: int)
    requires n >= 2
  {
    StrongWith(n, a, OddPart(n - 1), Twos(n - 1))
  }

  ghost predicate StrongWith(n: int, a: int, d: nat, s: nat) {
    || Cong(Squares(a, d, 0), 1, n) || Cong(Squares(a, d, 0), -1, n)
    || exists i :: 0 <= i < s && Cong(Squares(a, d, i), -1, n)
  }

  // What the definition means for primes.

  /** Going down from a^(p - 1), which is one, the square roots are one until minus one turns up. */
  lemma {:induction false} RootsDown(p: int, a: int, d: nat, i: nat)
    requires Prime(p) && Cong(Squares(a, d, i), 1, p)
    ensures Cong(Squares(a, d, 0), 1, p) || exists k :: 0 <= k < i && Cong(Squares(a, d, k), -1, p)
  {
    hide Cong, Prime;
    if i > 0 {
      RootsOfOne(p, Squares(a, d, i - 1));
      if Cong(Squares(a, d, i - 1), 1, p) {
        RootsDown(p, a, d, i - 1);
      } else {
        var k := i - 1;
        assert 0 <= k < i && Cong(Squares(a, d, k), -1, p);
      }
    }
  }

  /** Every prime is a strong probable prime to every base it does not divide. */
  lemma PrimeStrong(p: int, a: int)
    requires Prime(p) && !Divides(p, a)
    ensures Strong(p, a)
  {
    var d, s := OddPart(p - 1), Twos(p - 1);
    OddSplit(p - 1);
    LittleTheorem(p, a);
    SquaresPower(a, d, s);
    RootsDown(p, a, d, s);
  }

  lemma {:induction false} SquaresZero(p: int, a: int, d: nat, i: nat)
    requires p > 0 && Divides(p, a) && d > 0
    ensures Divides(p, Squares(a, d, i))
  {
    if i == 0 {
      DividesMul(p, a, Power(a, d - 1));
    } else {
      SquaresZero(p, a, d, i - 1);
      DividesMul(p, Squares(a, d, i - 1), Squares(a, d, i - 1));
    }
  }

  /** No prime is one to a base it divides. */
  lemma MultipleNotStrong(p: int, a: int)
    requires Prime(p) && Divides(p, a)
    ensures !Strong(p, a)
  {
    var d, s := OddPart(p - 1), Twos(p - 1);
    OddSplit(p - 1);
    assert d > 0 by { MulUnit(P2(s)); }
    forall i: nat
      ensures !Cong(Squares(a, d, i), 1, p) && !Cong(Squares(a, d, i), -1, p)
    {
      SquaresZero(p, a, d, i);
      NotUnit(p, Squares(a, d, i));
    }
  }

  lemma NotUnit(p: int, x: int)
    requires p >= 2 && Divides(p, x)
    ensures !Cong(x, 1, p) && !Cong(x, -1, p)
  {
    DividesIs(p, x);
    DivModUnique(1, p, 0, 1);
    DivModUnique(-1, p, -1, p - 1);
  }

  // What the definition means for odd numbers.

  /** After a one there are only ones. */
  lemma {:induction false} OnesStay(n: int, a: int, d: nat, i: nat, k: nat)
    requires n >= 3 && i <= k && Cong(Squares(a, d, i), 1, n)
    ensures Cong(Squares(a, d, k), 1, n) && !Cong(Squares(a, d, k), -1, n)
    decreases k
  {
    if i < k {
      OnesStay(n, a, d, i, k - 1);
      var x := Squares(a, d, k - 1);
      CongMul(x, 1, x, 1, n);
    }
    DivModUnique(1, n, 0, 1);
    DivModUnique(-1, n, -1, n - 1);
  }

  lemma {:induction false} OddSplitUnique(m: nat, d: nat, s: nat)
    requires m > 0 && d % 2 == 1 && m == d * P2(s)
    ensures d == OddPart(m) && s == Twos(m)
    decreases s
  {
    if s > 0 {
      assert d * (2 * P2(s - 1)) == 2 * (d * P2(s - 1));
      MulMono(0, d, P2(s - 1));
      OddSplitUnique(m / 2, d, s - 1);
    } else {
      MulUnit(d);
    }
  }

  lemma OddPartOdd(m: nat)
    requires m > 0
    ensures OddPart(m) % 2 == 1
  {}

  lemma OneNotMinusOne(n: int, x: int)
    requires n >= 3 && Cong(x, 1, n)
    ensures !Cong(x, -1, n)
  {
    DivModUnique(1, n, 0, 1);
    DivModUnique(-1, n, -1, n - 1);
  }

  /** After a minus one comes a one. */
  lemma SquareOfMinusOne(n: int, a: int, d: nat, i: nat)
    requires Cong(Squares(a, d, i), -1, n)
    ensures Cong(Squares(a, d, i + 1), 1, n)
  {
    var x := Squares(a, d, i);
    CongMul(x, -1, x, -1, n);
  }

  /** In the chain of squares a^d, a^(2 d), a^(4 d), ... an entry before the end whose square is one is itself one
      or minus one. */
  ghost predicate TrivialRoots(n: int, a: int, d: nat, s: nat) {
    forall i :: 0 <= i < s && Cong(Squares(a, d, i) * Squares(a, d, i), 1, n) ==>
      Cong(Squares(a, d, i), 1, n) || Cong(Squares(a, d, i), -1, n)
  }

  /** For odd n = d * 2^s + 1 with odd d: n is a strong probable prime to the base a if and only if a^(n - 1) is one
      and no other square roots of one than one and minus one turn up. */
  lemma StrongMeans(n: int, a: int, d: nat, s: nat)
    requires n >= 3 && n % 2 == 1 && d % 2 == 1 && n - 1 == d * P2(s)
    ensures Strong(n, a) <==> Cong(Power(a, n - 1), 1, n) && TrivialRoots(n, a, d, s)
  {
    OddSplitUnique(n - 1, d, s);
    SquaresPower(a, d, s);
    if s == 0 {
      MulUnit(d);
    }
    hide Squares, Power, Cong, OddPart, Twos;
    if Strong(n, a) {
      StrongForward(n, a, d, s);
    }
    if Cong(Squares(a, d, s), 1, n) && TrivialRoots(n, a, d, s) {
      StrongBackward(n, a, d, s);
    }
  }

  lemma StrongForward(n: int, a: int, d: nat, s: nat)
    requires n >= 3 && s >= 1 && StrongWith(n, a, d, s)
    ensures Cong(Squares(a, d, s), 1, n) && TrivialRoots(n, a, d, s)
  {
    hide Cong, Squares;
    if Cong(Squares(a, d, 0), 1, n) {
      forall i | 0 <= i <= s
        ensures Cong(Squares(a, d, i), 1, n)
      {
        OnesStay(n, a, d, 0, i);
      }
    } else {
      var k := if Cong(Squares(a, d, 0), -1, n) then 0 else
        var k :| 0 <= k < s && Cong(Squares(a, d, k), -1, n); k;
      SquareOfMinusOne(n, a, d, k);
      OnesStay(n, a, d, k + 1, s);
      forall i | 0 <= i < s && Cong(Squares(a, d, i) * Squares(a, d, i), 1, n)
        ensures Cong(Squares(a, d, i), 1, n) || Cong(Squares(a, d, i), -1, n)
      {
        NextSquareIs(a, d, i);
        if i < k {
          OnesStay(n, a, d, i + 1, k);
          assert false;
        } else if i > k {
          OnesStay(n, a, d, k + 1, i);
        }
      }
    }
  }

  lemma NextSquareIs(a: int, d: nat, i: nat)
    ensures Squares(a, d, i + 1) == Squares(a, d, i) * Squares(a, d, i)
  {}

  lemma {:induction false} StrongBackward(n: int, a: int, d: nat, s: nat)
    requires n >= 3 && s >= 1 && Cong(Squares(a, d, s), 1, n) && TrivialRoots(n, a, d, s)
    ensures StrongWith(n, a, d, s)
  {
    hide Cong, Squares;
    NextSquareIs(a, d, s - 1);
    if Cong(Squares(a, d, s - 1), 1, n) && s > 1 {
      StrongBackward(n, a, d, s - 1);
    }
  }
}
