/** The small primes of the calculator (qjscalc.js): the table lists just the primes below 500, in order. */
module PrimeTable {
  import opened Limbs
  import opened Congruence
  import opened Fermat

  const Row0: seq<int> := [2, 3, 5, 7, 11, 13, 17, 19, 23, 29, 31, 37, 41, 43, 47, 53, 59, 61, 67, 71, 73, 79, 83, 89]
  const Row1: seq<int> := [97, 101, 103, 107, 109, 113, 127, 131, 137, 139, 149, 151, 157, 163, 167, 173, 179]
  const Row2: seq<int> := [181, 191, 193, 197, 199, 211, 223, 227, 229, 233, 239, 241, 251, 257, 263, 269]
  const Row3: seq<int> := [271, 277, 281, 283, 293, 307, 311, 313, 317, 331, 337, 347, 349, 353, 359]
  const Row4: seq<int> := [367, 373, 379, 383, 389, 397, 401, 409, 419, 421, 431, 433, 439, 443, 449]
  const Row5: seq<int> := [457, 461, 463, 467, 479, 487, 491, 499]

  /** small_primes */
  const SmallPrimes: seq<int> := Row0 + Row1 + Row2 + Row3 + Row4 + Row5

  lemma ListLength()
    ensures |SmallPrimes| == 95
  {}

  /** One of the primes up to 19 divides n properly. */
  predicate TrialDivisible(n: int) {
    || (n % 2 == 0 && n != 2) || (n % 3 == 0 && n != 3) || (n % 5 == 0 && n != 5) || (n % 7 == 0 && n != 7)
    || (n % 11 == 0 && n != 11) || (n % 13 == 0 && n != 13) || (n % 17 == 0 && n != 17) || (n % 19 == 0 && n != 19)
  }

  /** Below 23 * 23 that decides. */
  lemma TrialDecides(n: int)
    requires 2 <= n < 529
    ensures Prime(n) <==> !TrialDivisible(n)
  {
    if d: int :| 2 <= d < n && n % d == 0 {
      var e := n / d;
      assert n == e * d;
      if d < 23 {
        SmallFactor(n, d);
      } else {
        if e >= 23 {
          MulMono(23, e, d);
        }
        if e <= 1 {
          MulMono(e, 1, d);
        }
        MulSwap(e, d);
        DivModUnique(n, e, d, 0);
        SmallFactor(n, e);
      }
    }
  }

  lemma SmallFactor(n: int, d: int)
    requires 2 <= d < 23 && d < n && n % d == 0
    ensures TrialDivisible(n)
  {
    hide TrialDivisible;
    if d % 2 == 0 {
      FactorOf(n, d, 2);
    } else if d % 3 == 0 {
      FactorOf(n, d, 3);
    } else if d % 5 == 0 {
      FactorOf(n, d, 5);
    } else {
      FactorOf(n, d, d);
    }
  }

  lemma FactorOf(n: int, d: int, q: int)
    requires q == 2 || q == 3 || q == 5 || q == 7 || q == 11 || q == 13 || q == 17 || q == 19
    requires q <= d < n && n % d == 0 && d % q == 0
    ensures TrialDivisible(n)
  {
    DividesIs(d, n);
    DividesIs(q, d);
    DividesTrans(q, d, n);
    DividesIs(q, n);
  }

  // The list of small primes is complete: a wheel of 30 leaves eight candidates in each turn.

  predicate OnWheel(n: int, b: int) {
    n == b + 1 || n == b + 7 || n == b + 11 || n == b + 13 || n == b + 17 || n == b + 19 || n == b + 23 || n == b + 29
  }

  lemma FirstTurn(r: int)
    requires r % 2 != 0 && r % 3 != 0 && r % 5 != 0 && 0 <= r < 30
    ensures OnWheel(r, 0)
  {}

  lemma Turn(n: int, q: int)
    requires n % 2 != 0 && n % 3 != 0 && n % 5 != 0 && 30 * q <= n < 30 * q + 30
    ensures OnWheel(n, 30 * q)
  {
    var r := n - 30 * q;
    CongWitness(n, r, 15 * q, 2);
    CongWitness(n, r, 10 * q, 3);
    CongWitness(n, r, 6 * q, 5);
    FirstTurn(r);
  }

  lemma InRow0(n: int)
    requires 2 <= n < 90 && !TrialDivisible(n)
    ensures n in Row0
  {
    if n >= 30 {
      Turn(n, n / 30);
    }
    match n / 30
    case 0 =>
    case 1 =>
    case 2 =>
  }

  lemma OfRow0(i: int)
    requires 0 <= i < |Row0|
    ensures 2 <= Row0[i] < 90 && !TrialDivisible(Row0[i]) && (i > 0 ==> Row0[i - 1] < Row0[i])
  {}

  lemma InRow1(n: int)
    requires 90 <= n < 180 && !TrialDivisible(n)
    ensures n in Row1
  {
    Turn(n, n / 30);
    match n / 30
    case 3 =>
    case 4 =>
    case 5 =>
  }

  lemma OfRow1(i: int)
    requires 0 <= i < |Row1|
    ensures 90 <= Row1[i] < 180 && !TrialDivisible(Row1[i]) && (i > 0 ==> Row1[i - 1] < Row1[i])
  {}

  lemma InRow2(n: int)
    requires 180 <= n < 270 && !TrialDivisible(n)
    ensures n in Row2
  {
    Turn(n, n / 30);
    match n / 30
    case 6 =>
    case 7 =>
    case 8 =>
  }

  lemma OfRow2(i: int)
    requires 0 <= i < |Row2|
    ensures 180 <= Row2[i] < 270 && !TrialDivisible(Row2[i]) && (i > 0 ==> Row2[i - 1] < Row2[i])
  {}

  lemma InRow3(n: int)
    requires 270 <= n < 360 && !TrialDivisible(n)
    ensures n in Row3
  {
    Turn(n, n / 30);
    match n / 30
    case 9 =>
    case 10 =>
    case 11 =>
  }

  lemma OfRow3(i: int)
    requires 0 <= i < |Row3|
    ensures 270 <= Row3[i] < 360 && !TrialDivisible(Row3[i]) && (i > 0 ==> Row3[i - 1] < Row3[i])
  {}

  lemma InRow4(n: int)
    requires 360 <= n < 450 && !TrialDivisible(n)
    ensures n in Row4
  {
    Turn(n, n / 30);
    match n / 30
    case 12 =>
    case 13 =>
    case 14 =>
  }

  lemma OfRow4(i: int)
    requires 0 <= i < |Row4|
    ensures 360 <= Row4[i] < 450 && !TrialDivisible(Row4[i]) && (i > 0 ==> Row4[i - 1] < Row4[i])
  {}

  lemma InRow5(n: int)
    requires 450 <= n < 500 && !TrialDivisible(n)
    ensures n in Row5
  {
    Turn(n, n / 30);
    match n / 30
    case 15 =>
    case 16 =>
  }

  lemma OfRow5(i: int)
    requires 0 <= i < |Row5|
    ensures 450 <= Row5[i] < 500 && !TrialDivisible(Row5[i]) && (i > 0 ==> Row5[i - 1] < Row5[i])
  {}

  lemma ListComplete(n: int)
    requires 2 <= n < 500 && Prime(n)
    ensures n in SmallPrimes
  {
    TrialDecides(n);
    hide TrialDivisible;
    if n < 90 {
      InRow0(n);
    } else if n < 180 {
      InRow1(n);
    } else if n < 270 {
      InRow2(n);
    } else if n < 360 {
      InRow3(n);
    } else if n < 450 {
      InRow4(n);
    } else {
      InRow5(n);
    }
  }

  lemma ListAt(i: int)
    requires 0 <= i < |SmallPrimes|
    ensures 2 <= SmallPrimes[i] < 500 && Prime(SmallPrimes[i]) && (i > 0 ==> SmallPrimes[i - 1] < SmallPrimes[i])
  {
    hide TrialDivisible;
    if i < 24 {
      OfRow0(i);
    } else if i < 41 {
      OfRow1(i - 24);
    } else if i < 57 {
      OfRow2(i - 41);
    } else if i < 72 {
      OfRow3(i - 57);
    } else if i < 87 {
      OfRow4(i - 72);
    } else {
      OfRow5(i - 87);
    }
    TrialDecides(SmallPrimes[i]);
  }

  lemma {:induction false} ListSorted(i: int, j: int)
    requires 0 <= i < j < |SmallPrimes|
    ensures SmallPrimes[i] < SmallPrimes[j]
  {
    ListAt(j);
    if i < j - 1 {
      ListSorted(i, j - 1);
    }
  }
}
