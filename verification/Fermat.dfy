/** Prime numbers: Euclid's lemma, Fermat's little theorem, and the square roots of one. */
module Fermat {
  import opened Limbs
  import opened Congruence

  ghost predicate Divides(d: int, n: int) {
    exists k: int :: n == Mul(k, d)
  }

  ghost predicate Prime(n: int) {
    n >= 2 && forall d: int :: 2 <= d < n ==> n % d != 0
  }

  // Divisibility.

  lemma DividesIs(d: int, n: int)
    requires d > 0
    ensures Divides(d, n) <==> n % d == 0
    ensures Divides(d, n) <==> Cong(n, 0, d)
  {
    if n % d == 0 {
      assert n == Mul(n / d, d);
    }
    if k: int :| n == Mul(k, d) {
      DivModUnique(n, d, k, 0);
    }
    DivModUnique(0, d, 0, 0);
  }

  lemma DividesMul(d: int, n: int, x: int)
    requires Divides(d, n)
    ensures Divides(d, n * x) && Divides(d, x * n)
  {
    var k: int :| n == Mul(k, d);
    MulAssoc(x, k, d);
    assert n * x == x * n == Mul(x * k, d);
  }

  lemma DividesSub(d: int, x: int, y: int)
    requires Divides(d, x) && Divides(d, y)
    ensures Divides(d, x - y) && Divides(d, x + y)
  {
    var i: int :| x == Mul(i, d);
    var j: int :| y == Mul(j, d);
    MulDist(i, j, d);
    MulDist(i, -j, d);
    MulNeg(j, d);
    assert x - y == Mul(i - j, d) && x + y == Mul(i + j, d);
  }

  lemma DividesSelf(d: int)
    ensures Divides(d, d) && Divides(d, 0)
  {
    assert d == Mul(1, d) && 0 == Mul(0, d);
  }

  lemma DividesTrans(d: int, m: int, n: int)
    requires Divides(d, m) && Divides(m, n)
    ensures Divides(d, n)
  {
    var k: int :| n == Mul(k, m);
    DividesMul(d, m, k);
  }

  lemma DividesDifference(a: int, b: int, m: int)
    requires m > 0
    ensures Cong(a, b, m) <==> Divides(m, a - b)
  {
    if Cong(a, b, m) {
      var k := CongQuotient(a, b, m);
      assert a - b == Mul(k, m);
    }
    if k: int :| a - b == Mul(k, m) {
      CongWitness(a, b, k, m);
    }
  }

  lemma DividesSmall(d: int, n: int)
    requires 0 < n < d
    ensures !Divides(d, n)
  {
    DividesIs(d, n);
    DivModUnique(n, d, 0, n);
  }

  /** Euclid's lemma: the remainders of p by a go down to one. */
  lemma {:induction false} EuclidReduced(p: int, a: int, b: int)
    requires Prime(p) && 1 <= a < p && Divides(p, a * b)
    ensures Divides(p, b)
    decreases a
  {
    if a > 1 {
      var q, r := p / a, p % a;
      assert r != 0;
      hide Divides, Prime;
      DividesMul(p, a * b, q);
      DividesSelf(p);
      DividesMul(p, p, b);
      DividesSub(p, p * b, q * (a * b));
      Distributed(p, a, b, q, r);
      EuclidReduced(p, r, b);
    }
  }

  lemma Distributed(p: int, a: int, b: int, q: int, r: int)
    requires p == q * a + r
    ensures r * b == p * b - q * (a * b)
  {
    MulDist(q * a, r, b);
  }

  lemma Euclid(p: int, a: int, b: int)
    requires Prime(p) && Divides(p, a * b)
    ensures Divides(p, a) || Divides(p, b)
  {
    DividesIs(p, a);
    if a % p != 0 {
      CongSelf(a, p);
      CongRefl(b, p);
      CongMul(a % p, a, b, b, p);
      DividesDifference(a % p * b, a * b, p);
      DividesSub(p, a % p * b - a * b, a * b);
      EuclidReduced(p, a % p, b);
    }
  }

  /** A factor prime to p can be cancelled. */
  lemma CancelPrime(p: int, a: int, x: int, y: int)
    requires Prime(p) && !Divides(p, a) && Cong(a * x, a * y, p)
    ensures Cong(x, y, p)
  {
    DividesDifference(a * x, a * y, p);
    MulDist(x, -y, a);
    assert a * (x - y) == a * x - a * y;
    Euclid(p, a, x - y);
    DividesDifference(x, y, p);
  }

  /** Modulo a prime, one has no other square roots than itself and minus one. */
  lemma RootsOfOne(p: int, r: int)
    requires Prime(p) && Cong(r * r, 1, p)
    ensures Cong(r, 1, p) || Cong(r, -1, p)
  {
    DividesDifference(r * r, 1, p);
    assert (r - 1) * (r + 1) == r * r - 1;
    Euclid(p, r - 1, r + 1);
    DividesDifference(r, 1, p);
    DividesDifference(r, -1, p);
  }

  // Fermat's little theorem: multiplication by a permutes the remainders.

  ghost function Product(s: seq<int>): int {
    if s == [] then 1 else s[0] * Product(s[1..])
  }

  ghost function Factorial(n: nat): int {
    if n == 0 then 1 else n * Factorial(n - 1)
  }

  /** n different numbers from 1 to n. */
  ghost predicate Permuted(s: seq<int>, n: nat) {
    && |s| == n && (forall i :: 0 <= i < n ==> 1 <= s[i] <= n)
    && forall i, j :: 0 <= i < j < n ==> s[i] != s[j]
  }

  lemma {:induction false} DistinctCount(s: seq<int>)
    requires forall i, j :: 0 <= i < j < |s| ==> s[i] != s[j]
    ensures |set x | x in s| == |s|
  {
    if s == [] {
      assert (set x | x in s) == {};
    } else {
      DistinctCount(s[1..]);
      assert (set x | x in s) == {s[0]} + set x | x in s[1..];
    }
  }

  lemma {:induction false} UpTo(n: nat) returns (s: set<int>)
    ensures (forall x :: x in s <==> 1 <= x <= n) && |s| == n
  {
    if n == 0 {
      s := {};
    } else {
      s := UpTo(n - 1);
      s := s + {n as int};
    }
  }

  lemma LargestOccurs(s: seq<int>, n: nat) returns (k: nat)
    requires n >= 1 && Permuted(s, n)
    ensures k < n && s[k] == n
  {
    var members := set x | x in s;
    DistinctCount(s);
    if n !in members {
      var below := UpTo(n - 1);
      assert members <= below;
      SubsetSize(members, below);
      assert false;
    }
    k :| 0 <= k < n && s[k] == n;
  }

  lemma {:induction false} SubsetSize<T>(a: set<T>, b: set<T>)
    requires a <= b
    ensures |a| <= |b|
  {
    if |a| > 0 {
      var x :| x in a;
      SubsetSize(a - {x}, b - {x});
    }
  }

  lemma {:induction false} ProductConcat(s: seq<int>, t: seq<int>)
    ensures Product(s + t) == Product(s) * Product(t)
    decreases |s|
  {
    if s == [] {
      assert s + t == t;
    } else {
      assert (s + t)[1..] == s[1..] + t;
      ProductConcat(s[1..], t);
      MulAssoc(s[0], Product(s[1..]), Product(t));
    }
  }

  lemma Without(s: seq<int>, k: nat)
    requires k < |s|
    ensures Product(s) == s[k] * Product(s[..k] + s[k + 1..])
  {
    assert s == s[..k] + ([s[k]] + s[k + 1..]);
    ProductConcat(s[..k], [s[k]] + s[k + 1..]);
    ProductConcat(s[..k], s[k + 1..]);
    assert ([s[k]] + s[k + 1..])[1..] == s[k + 1..];
    MulAssoc(Product(s[..k]), s[k], Product(s[k + 1..]));
    MulAssoc(s[k], Product(s[..k]), Product(s[k + 1..]));
    MulSwap(Product(s[..k]), s[k]);
  }

  lemma {:induction false} PermutedProduct(s: seq<int>, n: nat)
    requires Permuted(s, n)
    ensures Product(s) == Factorial(n)
    decreases n
  {
    if n > 0 {
      var k := LargestOccurs(s, n);
      Without(s, k);
      var t := s[..k] + s[k + 1..];
      assert forall i :: 0 <= i < n - 1 ==> t[i] == if i < k then s[i] else s[i + 1];
      PermutedProduct(t, n - 1);
    }
  }

  /** a, 2 a, 3 a, ... modulo p */
  ghost function Multiples(a: int, n: nat, p: int): seq<int>
    requires p > 0
  {
    seq(n, i => ((i + 1) * a) % p)
  }

  lemma {:induction false} MultiplesProduct(a: int, n: nat, p: int)
    requires p > 0
    ensures Cong(Product(Multiples(a, n, p)), Factorial(n) * Power(a, n), p)
  {
    if n == 0 {
      CongRefl(1, p);
    } else {
      var s := Multiples(a, n - 1, p);
      MultiplesProduct(a, n - 1, p);
      assert Multiples(a, n, p) == s + [(n * a) % p];
      ProductConcat(s, [(n * a) % p]);
      assert [(n * a) % p][1..] == [];
      CongSelf(n * a, p);
      CongMul(Product(s), Factorial(n - 1) * Power(a, n - 1), (n * a) % p, n * a, p);
      Interleave(Factorial(n - 1), Power(a, n - 1), n, a);
    }
  }

  lemma MultiplesPermuted(a: int, p: int)
    requires Prime(p) && !Divides(p, a)
    ensures Permuted(Multiples(a, p - 1, p), p - 1)
  {
    var s := Multiples(a, p - 1, p);
    forall i | 0 <= i < p - 1
      ensures 1 <= s[i] <= p - 1
    {
      NotMultiple(p, i + 1, a);
    }
    forall i, j | 0 <= i < j < p - 1
      ensures s[i] != s[j]
    {
      DifferentMultiples(p, a, i + 1, j + 1);
    }
  }

  lemma DifferentMultiples(p: int, a: int, i: int, j: int)
    requires Prime(p) && !Divides(p, a) && 1 <= i < j < p
    ensures (i * a) % p != (j * a) % p
  {
    if (i * a) % p == (j * a) % p {
      MulSwap(i, a);
      MulSwap(j, a);
      CancelPrime(p, a, i, j);
      DivModUnique(i, p, 0, i);
      DivModUnique(j, p, 0, j);
    }
  }

  lemma NotMultiple(p: int, i: int, a: int)
    requires Prime(p) && 1 <= i < p && !Divides(p, a)
    ensures 1 <= (i * a) % p <= p - 1
  {
    DividesIs(p, i * a);
    if (i * a) % p == 0 {
      Euclid(p, i, a);
      DividesSmall(p, i);
    }
  }

  lemma {:induction false} FactorialNot(p: int, n: nat)
    requires Prime(p) && n < p
    ensures !Divides(p, Factorial(n))
  {
    if n == 0 {
      DividesSmall(p, 1);
    } else {
      FactorialNot(p, n - 1);
      DividesSmall(p, n);
      if Divides(p, Factorial(n)) {
        Euclid(p, n, Factorial(n - 1));
      }
    }
  }

  /** Fermat's little theorem. */
  lemma LittleTheorem(p: int, a: int)
    requires Prime(p) && !Divides(p, a)
    ensures Cong(Power(a, p - 1), 1, p)
  {
    MultiplesPermuted(a, p);
    PermutedProduct(Multiples(a, p - 1, p), p - 1);
    MultiplesProduct(a, p - 1, p);
    FactorialNot(p, p - 1);
    var f := Factorial(p - 1);
    assert Cong(f * Power(a, p - 1), f * 1, p);
    CancelPrime(p, f, Power(a, p - 1), 1);
  }
}
