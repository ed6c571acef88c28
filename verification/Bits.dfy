/** Bitwise operations on natural numbers, and what they are on numbers with separate bits. */
module Bits {
  import opened Limbs

  function BitOr(a: nat, b: nat): nat {
    if a == 0 && b == 0 then 0
    else (if a % 2 == 1 || b % 2 == 1 then 1 else 0) + 2 * BitOr(a / 2, b / 2)
  }

  function BitAnd(a: nat, b: nat): nat {
    if a == 0 || b == 0 then 0
    else (if a % 2 == 1 && b % 2 == 1 then 1 else 0) + 2 * BitAnd(a / 2, b / 2)
  }

  /** Numbers without a common bit: the lower one below 2^p, the other a multiple of 2^p. */
  lemma {:induction false} OrDisjoint(a: nat, b: nat, p: nat)
    requires a < P2(p) && b % P2(p) == 0
    ensures BitOr(a, b) == a + b
    decreases p
  {
    if p == 0 {
      OrZero(b);
    } else if a != 0 || b != 0 {
      var q := P2(p - 1);
      HalfMultiple(b, q);
      OrDisjoint(a / 2, b / 2, p - 1);
    }
  }

  lemma HalfMultiple(b: nat, q: nat)
    requires q >= 1 && b % (2 * q) == 0
    ensures b % 2 == 0 && (b / 2) % q == 0
  {
    var k := b / (2 * q);
    assert b == k * (2 * q);
    assert k * (2 * q) == 2 * (k * q);
    DivModUnique(b / 2, q, k, 0);
  }

  lemma {:induction false} OrZero(b: nat)
    ensures BitOr(0, b) == b
    decreases b
  {
    if b > 0 {
      OrZero(b / 2);
    }
  }

  /** A mask of s ones keeps the s low bits. */
  lemma {:induction false} AndMask(x: nat, s: nat)
    ensures BitAnd(x, P2(s) - 1) == x % P2(s)
    decreases s
  {
    if s == 0 {
    } else {
      var q := P2(s - 1);
      AndMask(x / 2, s - 1);
      LowBits(x, q);
      assert P2(s) == 2 * q;
      AndStep(x, q);
    }
  }

  lemma AndStep(x: nat, q: nat)
    requires q >= 1
    ensures BitAnd(x, 2 * q - 1) == x % 2 + 2 * BitAnd(x / 2, q - 1)
  {
    assert (2 * q - 1) / 2 == q - 1 && (2 * q - 1) % 2 == 1;
    if x == 0 {
      assert BitAnd(0, q - 1) == 0;
    }
  }

  lemma LowBits(x: nat, q: nat)
    requires q >= 1
    ensures x % (2 * q) == x % 2 + 2 * ((x / 2) % q)
  {
    var h := x / 2;
    var k, r := h / q, h % q;
    assert h == k * q + r;
    assert x == k * (2 * q) + (x % 2 + 2 * r) by {
      assert k * (2 * q) == 2 * (k * q);
    }
    DivModUnique(x, 2 * q, k, x % 2 + 2 * r);
  }

  function BitXor(a: nat, b: nat): nat
    decreases a + b
  {
    if a == 0 && b == 0 then 0
    else (if a % 2 != b % 2 then 1 else 0) + 2 * BitXor(a / 2, b / 2)
  }

  lemma {:induction false} XorZero(a: nat, b: nat)
    ensures BitXor(a, b) == 0 <==> a == b
    decreases a + b
  {
    if a != 0 || b != 0 {
      XorZero(a / 2, b / 2);
    }
  }

  /** Shifting commutes with exclusive or. */
  lemma {:induction false} XorShift(a: nat, b: nat, k: nat)
    ensures a / P2(k) >= 0 && b / P2(k) >= 0 && BitXor(a, b) / P2(k) == BitXor(a / P2(k), b / P2(k))
    decreases k
  {
    if k == 0 {
      assert P2(0) == 1;
      DivModUnique(a, 1, a, 0);
      DivModUnique(b, 1, b, 0);
      DivModUnique(BitXor(a, b), 1, BitXor(a, b), 0);
    } else {
      XorShift(a / 2, b / 2, k - 1);
      HalfThen(a, P2(k - 1));
      HalfThen(b, P2(k - 1));
      HalfThen(BitXor(a, b), P2(k - 1));
      XorHalf(a, b);
    }
  }

  lemma XorHalf(a: nat, b: nat)
    ensures BitXor(a, b) / 2 == BitXor(a / 2, b / 2)
  {}

  lemma HalfThen(n: nat, q: nat)
    requires q >= 1
    ensures (n / 2) / q >= 0 && n / (2 * q) == (n / 2) / q
  {
    var h := n / 2;
    var k, r := h / q, h % q;
    assert h == k * q + r;
    assert n == k * (2 * q) + (n % 2 + 2 * r) by {
      assert k * (2 * q) == 2 * (k * q);
    }
    DivModUnique(n, 2 * q, k, n % 2 + 2 * r);
  }
}
