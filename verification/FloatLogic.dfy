/** Bitwise operations on integers in sign-magnitude form (libbf.c bf_logic_op): they act like infinite two's
    complement. */
module FloatLogic {
  import opened Limbs
  import opened LimbArith
  import opened BitFields
  import opened NttLoad
  import opened NttSize
  import opened NttStore
  import opened FloatSpec
  import opened FloatRound
  import opened FloatValue
  import opened FloatCorrect
  import opened FloatAlign
  import opened FloatAdd
  import opened FloatExact
  import opened TwosBits

  // Reading the limbs of an integer.

  /** The number is the integer m in magnitude. */
  ghost predicate Holds(a: Bf, m: nat)
    reads a
  {
    Finite(a) && Magnitude(Val(a.tab), a.Unit()) == m as real
  }

  /** get_bits at a_bit_offset + 64 i reads limb i of the integer. */
  lemma LimbRead(tab: seq<limb>, unit: int, m: nat, i: nat)
    requires Same(Val(tab), unit, m, 0)
    ensures
      var pos := 64 * i - unit;
      LimbOf(m, i) == TwoLimbs(LimbZ(tab, pos / 64), LimbZ(tab, pos / 64 + 1), pos % 64)
  {
    hide Val, P2, LimbOf, TwoLimbs, Second;
    var z := if unit <= 0 then 0 else (unit + 63) / 64;
    var d := 64 * z - unit;
    SecondLimb(tab, d, |tab| + z, i);
    SecondIs(tab, unit, m, z, d);
  }

  lemma SecondIs(tab: seq<limb>, unit: int, m: nat, z: nat, d: nat)
    requires Same(Val(tab), unit, m, 0) && d == 64 * z - unit && (unit <= 0 ==> z == 0)
    ensures Second(tab, d, |tab| + z) == m
  {
    hide Val, P2;
    if unit <= 0 {
      assert Padded(tab, 0) == tab by { assert Zeros(0) == [] by { NoZeros(); } }
      DivModUnique(Val(tab), P2(d), m, 0);
    } else {
      SecondValue(tab, d, |tab| + z);
    }
  }

  lemma NoZeros()
    ensures Zeros(0) == []
  {}

  /** The integer has no digits from the exponent on. */
  lemma HighBits(a: Bf, m: nat, k: nat)
    requires Holds(a, m) && k >= a.expn
    ensures Bit(m, k) == 0
  {
    hide Val, Scale, Magnitude;
    BelowExponent(a, m, k);
    hide P2;
    DivModUnique(m, P2(k), 0, m);
  }

  lemma BelowExponent(a: Bf, m: nat, k: nat)
    requires Holds(a, m) && k >= a.expn
    ensures m < P2(k)
  {
    hide Val, Scale, Magnitude, P2;
    TopMagnitude(a.tab, a.Unit());
    ScaleMonotone(a.expn, k);
    BitsScale(k);
  }

  /** A mantissa is below one in its top exponent. */
  lemma TopMagnitude(s: seq<limb>, unit: int)
    ensures Magnitude(Val(s), unit) < Scale(unit + 64 * |s|)
  {
    hide Val, Scale, P2, Magnitude;
    ValBound(s);
    P2Pow(|s|);
    MagnitudeOrder(Val(s), P2(64 * |s|), unit);
    PowerMagnitude(64 * |s|, unit);
  }

  // The limbs of the result.

  /** Digit k of the result. */
  ghost function ResultBit(ma: nat, mb: nat, aSign: bool, bSign: bool, op: LogicOp, k: nat): int {
    OpBit(TwosBit(Complemented(aSign, ma), k), TwosBit(Complemented(bSign, mb), k), op)
  }

  function LimbOp(v1: limb, v2: limb, aSign: bool, bSign: bool, op: LogicOp): (r: limb)
  {
    P2Limb();
    LogicBound(MaskedLimb(v1, aSign), MaskedLimb(v2, bSign), op, 64);
    MaskedLimb(LogicOp1(MaskedLimb(v1, aSign), MaskedLimb(v2, bSign), op), OpSign(aSign, bSign, op))
  }

  /** One limb of the result has the right digits. */
  lemma LimbBits(ma: nat, mb: nat, aSign: bool, bSign: bool, op: LogicOp, i: nat, t: nat)
    requires t < 64
    ensures 0 <= LimbOf(ma, i) < BASE && 0 <= LimbOf(mb, i) < BASE
    ensures
      Flipped(Bit(LimbOp(LimbOf(ma, i), LimbOf(mb, i), aSign, bSign, op), t), OpSign(aSign, bSign, op))
      == ResultBit(ma, mb, aSign, bSign, op, 64 * i + t)
  {
    hide Bit, LogicOp1, MaskedLimb, LimbOf;
    LimbRange(ma, i);
    LimbRange(mb, i);
    DigitOfLimb(ma, i, t);
    DigitOfLimb(mb, i, t);
    SignedBit(aSign, ma, 64 * i + t);
    SignedBit(bSign, mb, 64 * i + t);
    MaskedBit(LimbOf(ma, i), aSign, t);
    MaskedBit(LimbOf(mb, i), bSign, t);
    var v1, v2 := MaskedLimb(LimbOf(ma, i), aSign), MaskedLimb(LimbOf(mb, i), bSign);
    LogicBit(v1, v2, op, t);
    P2Limb();
    LogicBound(v1, v2, op, 64);
    MaskedBit(LogicOp1(v1, v2, op), OpSign(aSign, bSign, op), t);
  }

  /** Beyond the limbs that are computed, every digit is that of the sign. */
  lemma BeyondBits(a: Bf, b: Bf, ma: nat, mb: nat, aSign: bool, bSign: bool, op: LogicOp, l: nat, k: nat)
    requires Holds(a, ma) && Holds(b, mb) && k >= 64 * l && 64 * l >= LengthNeeded(a.expn, b.expn, aSign, bSign, op)
    ensures ResultBit(ma, mb, aSign, bSign, op, k) == if OpSign(aSign, bSign, op) then 1 else 0
  {
    hide Holds, Bit;
    SignedBit(aSign, ma, k);
    SignedBit(bSign, mb, k);
    if k >= a.expn {
      HighBits(a, ma, k);
    }
    if k >= b.expn {
      HighBits(b, mb, k);
    }
    BitRange(ma, k);
    BitRange(mb, k);
  }

  lemma BitRange(m: nat, k: nat)
    ensures 0 <= Bit(m, k) <= 1
  {}

  /** How many digits have to be computed; for a positive AND the shorter operand is enough. */
  function LengthNeeded(ae: int, be: int, aSign: bool, bSign: bool, op: LogicOp): int {
    if op.And? && !OpSign(aSign, bSign, op) then
      if !aSign && !bSign then (if ae < be then ae else be)
      else if !aSign then ae
      else be
    else if ae < be then be else ae
  }

  /** The limbs of the result, before its sign is applied. */
  method LogicLimbs(a: Bf, b: Bf, aSign: bool, bSign: bool, op: LogicOp, ghost ma: nat, ghost mb: nat)
    returns (tab: seq<limb>)
    requires Holds(a, ma) && Holds(b, mb)
    ensures |tab| >= 1 && (64 * |tab| <= a.expn + 63 || 64 * |tab| <= b.expn + 63 || |tab| == 1)
    ensures forall k: nat ::
              TwosBit(Complemented(OpSign(aSign, bSign, op), Val(tab)), k) == ResultBit(ma, mb, aSign, bSign, op, k)
  {
    hide Val, LimbOf, TwoLimbs, LimbOp, ResultBit;
    var l0 := LengthNeeded(a.expn, b.expn, aSign, bSign, op);
    var l: nat := ((if l0 > 1 then l0 else 1) + 64 - 1) / 64;
    var aBitOffset := |a.tab| * 64 - a.expn;
    var bBitOffset := |b.tab| * 64 - b.expn;
    SameOf(a, ma);
    SameOf(b, mb);
    tab := [];
    var i := 0;
    while i < l
      invariant 0 <= i <= l && |tab| == i
      invariant forall j :: 0 <= j < i ==> LimbIsOp(tab[j], ma, mb, aSign, bSign, op, j)
    {
      LimbRead(a.tab, a.Unit(), ma, i);
      LimbRead(b.tab, b.Unit(), mb, i);
      var v1 := GetBitsZ(a.tab, aBitOffset + i * 64);
      var v2 := GetBitsZ(b.tab, bBitOffset + i * 64);
      tab := tab + [LimbOp(v1, v2, aSign, bSign, op)];
      i := i + 1;
    }
    forall k: nat
      ensures TwosBit(Complemented(OpSign(aSign, bSign, op), Val(tab)), k) == ResultBit(ma, mb, aSign, bSign, op, k)
    {
      ResultDigit(a, b, ma, mb, aSign, bSign, op, tab, k);
    }
  }

  lemma SameOf(a: Bf, m: nat)
    requires Holds(a, m)
    ensures Same(Val(a.tab), a.Unit(), m, 0)
  {
    WholeMagnitude(m);
    SameMagnitude(Val(a.tab), a.Unit(), m, 0);
  }

  /** u is limb j of the result. */
  ghost predicate LimbIsOp(u: limb, ma: nat, mb: nat, aSign: bool, bSign: bool, op: LogicOp, j: nat) {
    0 <= LimbOf(ma, j) < BASE && 0 <= LimbOf(mb, j) < BASE
      && u == LimbOp(LimbOf(ma, j), LimbOf(mb, j), aSign, bSign, op)
  }

  lemma ResultDigit(a: Bf, b: Bf, ma: nat, mb: nat, aSign: bool, bSign: bool, op: LogicOp, tab: seq<limb>, k: nat)
    requires Holds(a, ma) && Holds(b, mb) && 64 * |tab| >= LengthNeeded(a.expn, b.expn, aSign, bSign, op)
    requires forall j :: 0 <= j < |tab| ==> LimbIsOp(tab[j], ma, mb, aSign, bSign, op, j)
    ensures TwosBit(Complemented(OpSign(aSign, bSign, op), Val(tab)), k) == ResultBit(ma, mb, aSign, bSign, op, k)
  {
    hide Val, LimbOf, LimbOp, ResultBit, Holds, Bit, TwosBit, LengthNeeded;
    var rSign := OpSign(aSign, bSign, op);
    SignedBit(rSign, Val(tab), k);
    if k < 64 * |tab| {
      var j, t := k / 64, k % 64;
      assert LimbIsOp(tab[j], ma, mb, aSign, bSign, op, j);
      LimbOfVal(tab, j);
      DigitOfLimb(Val(tab), j, t);
      LimbBits(ma, mb, aSign, bSign, op, j, t);
    } else {
      BitBeyond(tab, k);
      BeyondBits(a, b, ma, mb, aSign, bSign, op, |tab|, k);
    }
  }

  // The operation.

  /** The number is the integer v. */
  ghost predicate IsInteger(a: Bf, v: int)
    reads a
  {
    Finite(a) && Signed(a) == v as real
  }

  function AbsInt(v: int): nat {
    if v < 0 then -v else v
  }

  lemma IntegerMagnitude(a: Bf, v: int)
    requires IsInteger(a, v)
    ensures Holds(a, AbsInt(v)) && (v > 0 ==> !a.sign) && (v < 0 ==> a.sign) && (a.tab == [] <==> v == 0)
  {
    hide Val, Magnitude;
    ZeroMagnitude(a);
  }

  /** An integer has at most 63 digits of its lowest limb behind the point. */
  lemma IntegerUnit(a: Bf, v: int)
    requires IsInteger(a, v) && a.Normal()
    ensures a.Unit() > -64 && a.expn >= 1
  {
    hide Val, Magnitude, P2;
    IntegerMagnitude(a, v);
    SameOf(a, AbsInt(v));
    if a.expn <= 0 {
      BelowExponent(a, AbsInt(v), 0);
      PowerZero(0);
    }
    var u := a.Unit();
    if u <= -64 {
      P2Add(-u - 64, 64);
      P2Limb();
      MulAssoc(AbsInt(v), P2(-u - 64), BASE);
      BottomLimb(a.tab);
      DivModUnique(Val(a.tab), BASE, Mul(AbsInt(v), P2(-u - 64)), 0);
    }
  }

  /** bf_add_si with 1 or -1 at infinite precision. */
  method AddSi(a: Bf, b1: int, ghost v: int) returns (t: Bf)
    requires IsInteger(a, v) && (b1 == 1 || b1 == -1) && a.expn <= PREC_INF - 66
    ensures fresh(t) && IsInteger(t, v + b1)
  {
    hide Val, Scale, Magnitude, RoundedReal, PREC_INF, P2;
    t := new Bf();
    var one := new Bf();
    one.sign, one.expn, one.tab := b1 < 0, 1, [HALF];
    OneHalf();
    if a.tab != [] {
      IntegerUnit(a, v);
    }
    ExactSumIs(a, one, v, b1);
    SumBelow(a, v, b1);
    var inexact := BfAddInternal(t, a, one, PREC_INF, TowardZero, false);
    if v + b1 == 0 {
      ZeroMagnitude(t);
    } else {
      ExactWhenWide(AbsInt(v + b1), PREC_INF, t.sign, TowardZero, Val(t.tab), t.Unit(), inexact);
    }
  }

  lemma OneHalf()
    ensures Magnitude(Val([HALF]), 1 - 64) == 1.0
  {
    hide Scale;
    P2Limb();
    assert Val([HALF]) == HALF by { ValOne(HALF); }
    ScaleAdd(63, -63);
    BitsScale(63);
    ScaleZero();
  }

  lemma ValOne(x: limb)
    ensures Val([x]) == x
  {
    assert [x][..0] == [];
    PowNone();
  }

  lemma ExactSumIs(a: Bf, one: Bf, v: int, b1: int)
    requires IsInteger(a, v) && Signed(one) == b1 as real
    ensures ExactSum(a, one, false) == (v + b1) as real && Absolute(ExactSum(a, one, false)) == AbsInt(v + b1) as real
  {}

  lemma SumBelow(a: Bf, v: int, b1: int)
    requires IsInteger(a, v) && (b1 == 1 || b1 == -1) && a.expn <= PREC_INF - 66
    ensures PREC_INF >= 1 && AbsInt(v + b1) < P2(PREC_INF)
  {
    hide P2, Magnitude, Val;
    IntegerMagnitude(a, v);
    BelowExponent(a, AbsInt(v), PREC_INF - 2);
    HalfPower(PREC_INF);
    HalfPower(PREC_INF - 1);
  }

  /** The operand of an operation: a negative number stands by the opposite digits of the number above it. */
  method Operand(a1: Bf, ghost x: int) returns (a: Bf, aSign: bool, ghost m: nat)
    requires IsInteger(a1, x) && a1.expn <= PREC_INF - 66
    ensures (a == a1 || fresh(a)) && Holds(a, m) && x == Complemented(aSign, m) && (a.expn <= a1.expn || a.expn <= 1)
  {
    hide Val, Magnitude, PREC_INF;
    IntegerMagnitude(a1, x);
    if a1.tab != [] {
      IntegerUnit(a1, x);
    }
    // the sign of a zero has no meaning here
    aSign := if a1.expn <= 0 then false else a1.sign;
    if aSign {
      a := AddSi(a1, 1, x);
      m := -x - 1;
      IntegerMagnitude(a, x + 1);
      SmallerExponent(a, m, a1, AbsInt(x));
    } else {
      a := a1;
      m := x;
    }
  }

  /** The exponent follows the size of the integer. */
  lemma SmallerExponent(a: Bf, m: nat, b: Bf, n: nat)
    requires Holds(a, m) && Holds(b, n) && m <= n
    ensures a.expn <= b.expn || a.expn <= 1
  {
    hide Val, Magnitude, P2;
    if a.Normal() && a.expn > b.expn && a.expn > 1 {
      var k := if b.expn < 0 then 0 else b.expn;
      BelowExponent(b, n, k);
      AboveExponent(a, m, a.expn - 1);
      P2Monotone(k, a.expn - 1);
    }
  }

  lemma AboveExponent(a: Bf, m: nat, k: nat)
    requires Holds(a, m) && a.Normal() && k == a.expn - 1
    ensures m >= P2(k)
  {
    hide Val, Scale, P2, Magnitude;
    TopLength(a.tab);
    MagnitudeOrder(P2(64 * |a.tab| - 1), Val(a.tab), a.Unit());
    PowerMagnitude(64 * |a.tab| - 1, a.Unit());
    BitsScale(k);
  }

  /** Are the digits of z the results of the operation on those of x and y? */
  ghost predicate Bitwise(z: int, x: int, y: int, op: LogicOp) {
    forall k: nat :: TwosBit(z, k) == OpBit(TwosBit(x, k), TwosBit(y, k), op)
  }

  /** There is only one such integer. */
  lemma BitwiseUnique(z: int, w: int, x: int, y: int, op: LogicOp, n: nat)
    requires Bitwise(z, x, y, op) && Bitwise(w, x, y, op) && 0 - P2(n) <= z < P2(n) && 0 - P2(n) <= w < P2(n)
    ensures z == w
  {
    hide P2, TwosBit, OpBit;
    forall k: nat
      ensures TwosBit(z, k) == TwosBit(w, k)
    {
      assert TwosBit(z, k) == OpBit(TwosBit(x, k), TwosBit(y, k), op);
    }
    SameBits(z, w, n);
  }

  /** In numbers: AND and OR together make the sum of the operands, and XOR is OR without AND. */
  lemma {:induction false} BitwiseSum(x: int, y: int, both: int, any: int, one: int, n: nat)
    requires Bitwise(both, x, y, And) && Bitwise(any, x, y, Or) && Bitwise(one, x, y, Xor)
    requires 0 - P2(n) <= x < P2(n) && 0 - P2(n) <= y < P2(n)
    requires 0 - P2(n) <= both < P2(n) && 0 - P2(n) <= any < P2(n) && 0 - P2(n) <= one < P2(n)
    ensures both + any == x + y && one == any - both
    decreases n
  {
    LowDigits(x, y, both, And);
    LowDigits(x, y, any, Or);
    LowDigits(x, y, one, Xor);
    if n == 0 {
      assert P2(0) == 1;
    } else {
      assert P2(n) == 2 * P2(n - 1);
      hide Bitwise, P2;
      BitwiseSum(x / 2, y / 2, both / 2, any / 2, one / 2, n - 1);
    }
  }

  lemma LowDigits(x: int, y: int, z: int, op: LogicOp)
    requires Bitwise(z, x, y, op)
    ensures z % 2 == OpBit(x % 2, y % 2, op) && Bitwise(z / 2, x / 2, y / 2, op)
  {
    BitZero(x);
    BitZero(y);
    BitZero(z);
    assert TwosBit(z, 0) == OpBit(TwosBit(x, 0), TwosBit(y, 0), op);
    hide TwosBit;
    forall k: nat
      ensures TwosBit(z / 2, k) == OpBit(TwosBit(x / 2, k), TwosBit(y / 2, k), op)
    {
      BitNext(x, k);
      BitNext(y, k);
      BitNext(z, k);
      assert TwosBit(z, k + 1) == OpBit(TwosBit(x, k + 1), TwosBit(y, k + 1), op);
    }
  }

  /** Normalization without rounding. */
  method Normalize(r: Bf, ghost m: nat)
    requires |r.tab| >= 1 && r.Unit() == 0 && Val(r.tab) == m && r.expn <= PREC_INF - 66
    modifies r
    ensures r.sign == old(r.sign) && Holds(r, m) && r.expn <= old(r.expn)
  {
    ghost var expn := r.expn;
    hide Val, Scale, Magnitude, PREC_INF, Rounded, P2;
    WholeMagnitude(m);
    NotRounded(r.tab, m, r.expn, r.sign);
    var inexact := BfNormalizeAndRound(r, PREC_INF, TowardZero);
    if m == 0 {
      ZeroMagnitude(r);
    } else {
      RoundedExactly(m, r.sign, Val(r.tab), r.Unit(), inexact);
    }
    ExponentBound(r, m, expn);
  }

  lemma ExponentBound(a: Bf, m: nat, k: nat)
    requires Holds(a, m) && m < P2(k)
    ensures a.expn <= k
  {
    hide Val, Magnitude, P2;
    if a.Normal() && a.expn > k {
      AboveExponent(a, m, a.expn - 1);
      P2Monotone(k, a.expn - 1);
    }
  }

  lemma NotRounded(s: seq<limb>, m: nat, expn: int, neg: bool)
    requires Val(s) == m && expn == 64 * |s| <= PREC_INF - 66
    ensures RoundInt(m, PREC_INF, neg, TowardZero) == m && m < P2(expn)
  {
    hide P2, Val;
    ValBound(s);
    P2Pow(|s|);
    P2Monotone(64 * |s|, PREC_INF);
    LengthWithin(m, PREC_INF);
    hide BitLength;
    PowerZero(m);
    DivModUnique(m, 1, m, 0);
  }

  lemma RoundedExactly(m: nat, neg: bool, n': nat, e': int, inexact: bool)
    requires RoundInt(m, PREC_INF, neg, TowardZero) == m && Rounded(m, 0, PREC_INF, neg, TowardZero, n', e', inexact)
    ensures Magnitude(n', e') == m as real
  {
    hide RoundInt;
    WholeMagnitude(m);
    SameMagnitude(m, 0, n', e');
  }

  lemma ByDigits(z: int, x: int, y: int, op: LogicOp, ma: nat, mb: nat, aSign: bool, bSign: bool)
    requires x == Complemented(aSign, ma) && y == Complemented(bSign, mb)
    requires forall k: nat :: TwosBit(z, k) == ResultBit(ma, mb, aSign, bSign, op, k)
    ensures Bitwise(z, x, y, op)
  {
    hide TwosBit, OpBit, Complemented;
    forall k: nat
      ensures TwosBit(z, k) == OpBit(TwosBit(x, k), TwosBit(y, k), op)
    {
      assert TwosBit(z, k) == ResultBit(ma, mb, aSign, bSign, op, k);
    }
  }

  lemma HoldsInteger(a: Bf, m: nat)
    requires Holds(a, m)
    ensures IsInteger(a, if a.sign then 0 - m else m)
  {}

  lemma SameInteger(a: Bf, b: Bf, v: int)
    requires IsInteger(a, v) && a.sign == b.sign && a.expn == b.expn && a.tab == b.tab
    ensures IsInteger(b, v)
  {}

  /** bf_logic_op */
  method BfLogicOp(r: Bf, a1: Bf, b1: Bf, op: LogicOp, ghost x: int, ghost y: int) returns (ghost z: int)
    requires r != a1 && r != b1 && IsInteger(a1, x) && IsInteger(b1, y)
    requires a1.expn <= PREC_INF - 130 && b1.expn <= PREC_INF - 130
    modifies r
    ensures IsInteger(r, z) && Bitwise(z, x, y, op)
  {
    assert PREC_INF >= 1000;
    hide Val, Magnitude, PREC_INF, P2, Holds, IsInteger;
    var a, aSign, b, bSign;
    ghost var ma, mb;
    a, aSign, ma := Operand(a1, x);
    b, bSign, mb := Operand(b1, y);
    var rSign := OpSign(aSign, bSign, op);
    var tab := LogicLimbs(a, b, aSign, bSign, op, ma, mb);
    ghost var m := Val(tab);
    z := Complemented(rSign, m);
    r.tab, r.expn, r.sign := tab, 64 * |tab|, rSign;
    ByDigits(z, x, y, op, ma, mb, aSign, bSign);
    Normalize(r, m);
    HoldsInteger(r, m);
    if rSign {
      ghost var v: int := m;
      var t := AddSi(r, -1, -v);
      r.sign, r.expn, r.tab := t.sign, t.expn, t.tab;
      SameInteger(t, r, z);
    }
  }
}
