/** The binary digits of integers in infinite two's complement, and the bitwise operations on limbs
    (libbf.c bf_logic_op1). */
module TwosBits {
  import opened Limbs
  import opened Bits
  import opened BitFields
  import opened NttStore
  import opened FloatSpec

  /** BF_LOGIC_OR, BF_LOGIC_XOR and BF_LOGIC_AND. */
  datatype LogicOp = Or | Xor | And

  /** The digit of weight 2^k in two's complement. */
  ghost function TwosBit(v: int, k: nat): int {
    (v / P2(k)) % 2
  }

  /** The operation on one digit. */
  function OpBit(x: int, y: int, op: LogicOp): int {
    match op
    case Or => if x == 1 || y == 1 then 1 else 0
    case Xor => if x != y then 1 else 0
    case And => if x == 1 && y == 1 then 1 else 0
  }

  function OpSign(x: bool, y: bool, op: LogicOp): bool {
    match op
    case Or => x || y
    case Xor => x != y
    case And => x && y
  }

  /** The number that is m, or the one whose digits are the opposite ones. */
  function Complemented(negative: bool, m: nat): int {
    if negative then 0 - m - 1 else m
  }

  function Flipped(b: int, flip: bool): int {
    if flip then 1 - b else b
  }

  lemma SignedBit(negative: bool, m: nat, k: nat)
    ensures TwosBit(Complemented(negative, m), k) == Flipped(Bit(m, k), negative)
  {
    hide P2;
    if negative {
      var q, r := m / P2(k), m % P2(k);
      DivModFacts(m, P2(k));
      NextProduct(q, P2(k));
      DivModUnique(0 - m - 1, P2(k), 0 - q - 1, P2(k) - 1 - r);
    }
  }

  lemma NextProduct(q: int, p: int)
    ensures Mul(-q - 1, p) == -Mul(q, p) - p
  {}

  /** Two integers with the same digits are equal. */
  lemma {:induction false} SameBits(x: int, y: int, n: nat)
    requires 0 - P2(n) <= x < P2(n) && 0 - P2(n) <= y < P2(n) && forall k: nat :: TwosBit(x, k) == TwosBit(y, k)
    ensures x == y
    decreases n
  {
    BitZero(x);
    BitZero(y);
    assert TwosBit(x, 0) == TwosBit(y, 0);
    if n == 0 {
      assert x % 2 == y % 2;
    } else {
      forall k: nat
        ensures TwosBit(x / 2, k) == TwosBit(y / 2, k)
      {
        BitNext(x, k);
        BitNext(y, k);
        assert TwosBit(x, k + 1) == TwosBit(y, k + 1);
      }
      SameBits(x / 2, y / 2, n - 1);
    }
  }

  lemma BitZero(x: int)
    ensures TwosBit(x, 0) == x % 2
  {
    assert P2(0) == 1;
    DivModUnique(x, 1, x, 0);
  }

  lemma BitNext(x: int, k: nat)
    ensures TwosBit(x, k + 1) == TwosBit(x / 2, k)
  {
    var p, h := P2(k), x / 2;
    var q, r := h / p, h % p;
    assert h == q * p + r;
    assert q * (2 * p) == 2 * (q * p);
    DivModUnique(x, 2 * p, q, 2 * r + x % 2);
  }

  // Bitwise operations on limbs.

  /** bf_logic_op1 */
  function LogicOp1(a: nat, b: nat, op: LogicOp): nat {
    match op
    case Or => BitOr(a, b)
    case Xor => BitXor(a, b)
    case And => BitAnd(a, b)
  }

  lemma LogicStep(a: nat, b: nat, op: LogicOp)
    ensures LogicOp1(a, b, op) % 2 == OpBit(a % 2, b % 2, op) && LogicOp1(a, b, op) / 2 == LogicOp1(a / 2, b / 2, op)
  {}

  lemma {:induction false} LogicBit(a: nat, b: nat, op: LogicOp, k: nat)
    ensures Bit(LogicOp1(a, b, op), k) == OpBit(Bit(a, k), Bit(b, k), op)
    decreases k
  {
    LogicStep(a, b, op);
    hide LogicOp1;
    if k == 0 {
      BitZero(a);
      BitZero(b);
      BitZero(LogicOp1(a, b, op));
    } else {
      LogicBit(a / 2, b / 2, op, k - 1);
      BitNext(a, k - 1);
      BitNext(b, k - 1);
      BitNext(LogicOp1(a, b, op), k - 1);
    }
  }

  lemma {:induction false} LogicBound(a: nat, b: nat, op: LogicOp, n: nat)
    requires a < P2(n) && b < P2(n)
    ensures LogicOp1(a, b, op) < P2(n)
    decreases n
  {
    if n > 0 {
      LogicStep(a, b, op);
      LogicBound(a / 2, b / 2, op, n - 1);
    }
  }

  /** v ^ mask for a mask of equal digits */
  function MaskedLimb(v: limb, mask: bool): limb {
    if mask then BASE - 1 - v else v
  }

  lemma MaskedBit(v: limb, mask: bool, t: nat)
    requires t < 64
    ensures Bit(MaskedLimb(v, mask), t) == Flipped(Bit(v, t), mask)
  {
    if mask {
      P2Split(t);
      assert P2(64 - t) == 2 * P2(64 - t - 1);
      hide P2;
      OppositeBit(v, P2(t), P2(64 - t - 1));
    }
  }

  lemma OppositeBit(v: nat, p: nat, q: nat)
    requires p >= 1 && p * (2 * q) == BASE && v < BASE
    ensures ((BASE - 1 - v) / p) % 2 == 1 - (v / p) % 2
  {
    var g, e := v / p, v % p;
    assert v == g * p + e;
    MulSwap(p, 2 * q);
    Difference(2 * q - 1, g, p, e);
    DivModUnique(BASE - 1 - v, p, 2 * q - 1 - g, p - 1 - e);
  }

  lemma Difference(x: int, g: int, p: int, e: int)
    ensures (x + 1) * p - 1 - (g * p + e) == (x - g) * p + (p - 1 - e)
  {}

  /** The digits of a number are those of its limbs. */
  lemma DigitOfLimb(m: nat, i: nat, t: nat)
    requires t < 64
    ensures LimbOf(m, i) >= 0 && Bit(m, 64 * i + t) == Bit(LimbOf(m, i), t)
  {
    LimbIsQuotient(m, i);
    var u := m / P2(64 * i);
    P2Add(64 * i, t);
    P2Split(t);
    P2Add(t, 1);
    P2Add(1, 63 - t);
    assert P2(64 - t) == 2 * P2(63 - t);
    hide P2;
    DivDiv(m, P2(64 * i), P2(t));
    LowBit(u, P2(t), P2(63 - t));
  }

  lemma LimbIsQuotient(m: nat, i: nat)
    ensures m / P2(64 * i) >= 0 && LimbOf(m, i) == (m / P2(64 * i)) % BASE >= 0
  {
    P2Pow(i);
    QuotientNatural(m, P2(64 * i));
  }

  lemma LowBit(u: nat, p: nat, q: nat)
    requires p >= 1 && q >= 1 && p * (2 * q) == BASE
    ensures ((u % BASE) / p) % 2 == (u / p) % 2
  {
    var f, r := u / BASE, u % BASE;
    var g, e := r / p, r % p;
    assert u == f * BASE + r && r == g * p + e;
    Regrouped(f, p, q, g, BASE);
    DivModUnique(u, p, 2 * (f * q) + g, e);
  }

  lemma Regrouped(f: int, p: int, q: int, g: int, base: int)
    requires p * (2 * q) == base
    ensures f * base + g * p == (2 * (f * q) + g) * p
  {
    assert f * (p * (2 * q)) == (2 * (f * q)) * p;
    MulDist(2 * (f * q), g, p);
  }
}
