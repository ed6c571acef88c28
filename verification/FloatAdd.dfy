/** Addition and subtraction of finite floating point numbers (libbf.c bf_add_internal). */
module FloatAdd {
  import opened Limbs
  import opened LimbArith
  import opened BitFields
  import opened NttLoad
  import opened NttSize
  import opened NttStore
  import opened FloatSpec
  import opened FloatRound
  import opened FloatValue
  import opened FloatCorrect
  import opened FloatDiv
  import opened FloatAlign
  import opened FloatCancel
  import opened FloatSum

  /** tot_len: the limbs that hold both operands. */
  function TotalLength(la: nat, lb: nat, d: nat): nat {
    Max(la, lb + (d + 64 - 1) / 64)
  }

  lemma TotalAligned(la: nat, lb: nat, d: nat)
    ensures Aligned(la, lb, d, TotalLength(la, lb, d))
  {}

  /** The magnitudes as mantissas in common limbs. */
  ghost function Larger(a: seq<limb>, b: seq<limb>, d: nat): nat {
    First(a, TotalLength(|a|, |b|, d))
  }

  ghost function Smaller(a: seq<limb>, b: seq<limb>, d: nat): nat {
    Second(b, d, TotalLength(|a|, |b|, d))
  }

  // Comparison.

  /** bf_cmpu for numbers with the same exponent. */
  method CmpMantissas(a: seq<limb>, b: seq<limb>) returns (c: int)
    ensures c == if Larger(a, b, 0) > Smaller(a, b, 0) then 1 else if Larger(a, b, 0) == Smaller(a, b, 0) then 0 else -1
  {
    hide LimbOf, First, Second, SameAbove, P2;
    var len := Max(|a|, |b|);
    ghost var x, y := First(a, len), Second(b, 0, len);
    BothBelow(a, b, 0, len);
    var i: int := len;
    i := i - 1;
    while i >= 0
      invariant -1 <= i < len && SameAbove(x, y, 64 * (i + 1))
    {
      var v1, v2 := LimbZ(a, |a| - len + i), LimbZ(b, |b| - len + i);
      FirstLimb(a, len, i);
      SecondLimb(b, 0, len, i);
      LimbWhole(LimbZ(b, |b| - len + i), LimbZ(b, |b| - len + i + 1));
      if v1 != v2 {
        DecidedBy(x, y, i);
        return if v1 < v2 then -1 else 1;
      }
      SameStep(x, y, i);
      i := i - 1;
    }
    SameNumber(x, y);
    return 0;
  }

  lemma LimbWhole(v: limb, w: limb)
    ensures TwoLimbs(v, w, 0) == v
  {}

  lemma DecidedBy(x: nat, y: nat, j: nat)
    requires SameAbove(x, y, 64 * (j + 1)) && LimbOf(x, j) != LimbOf(y, j)
    ensures x > y <==> LimbOf(x, j) > LimbOf(y, j)
    ensures x != y
  {
    hide LimbOf, P2;
    if x > y {
      LargerLimb(x, y, j);
    } else if y > x {
      LargerLimb(y, x, j);
    }
  }

  /** The magnitude of a in common limbs is at least that of b. */
  ghost predicate NotBelowMagnitude(a: Bf, b: Bf, equal: bool)
    reads a, b
  {
    b.expn <= a.expn && Larger(a.tab, b.tab, a.expn - b.expn) >= Smaller(a.tab, b.tab, a.expn - b.expn)
    && (equal <==> a.expn == b.expn && Larger(a.tab, b.tab, 0) == Smaller(a.tab, b.tab, 0))
    && (!equal && a.Normal() && b.Normal()
        ==> Larger(a.tab, b.tab, a.expn - b.expn) > Smaller(a.tab, b.tab, a.expn - b.expn))
  }

  ghost predicate Finite(a: Bf)
    reads a
  {
    a.Normal() || a.Zero()
  }

  /** bf_cmpu */
  method BfCmpU(a: Bf, b: Bf) returns (c: int)
    requires Finite(a) && Finite(b)
    ensures c >= 0 ==> NotBelowMagnitude(a, b, c == 0)
    ensures c < 0 ==> NotBelowMagnitude(b, a, false)
  {
    hide Larger, Smaller;
    if a.expn != b.expn {
      if a.expn < b.expn {
        LargerExponent(b.tab, a.tab, b.expn - a.expn, a.Zero());
        return -1;
      } else {
        LargerExponent(a.tab, b.tab, a.expn - b.expn, b.Zero());
        return 1;
      }
    }
    c := CmpMantissas(a.tab, b.tab);
    Symmetric(a.tab, b.tab);
  }

  lemma Symmetric(a: seq<limb>, b: seq<limb>)
    ensures Larger(a, b, 0) == Smaller(b, a, 0) && Larger(b, a, 0) == Smaller(a, b, 0)
  {
    hide Val, P2;
    var len := Max(|a|, |b|);
    P2Nothing(Val(Padded(a, len - |a|)));
    P2Nothing(Val(Padded(b, len - |b|)));
  }

  lemma LargerExponent(a: seq<limb>, b: seq<limb>, d: nat, zero: bool)
    requires d >= 1 && (|a| >= 1 && a[|a| - 1] >= HALF) && (zero ==> b == [])
    ensures Larger(a, b, d) >= Smaller(a, b, d) && (!zero ==> Larger(a, b, d) > Smaller(a, b, d))
  {
    hide First, Second, P2, Pow;
    var tot := TotalLength(|a|, |b|, d);
    FirstRange(a, tot);
    SecondRange(b, d, tot);
    P2Monotone(64 * tot - d, 64 * tot - 1);
  }

  // The exact sum.

  /** The number of limbs of the result, and what it must be for the rounding. */
  lemma EnoughBits(W: nat, tot: nat, rlen: nat, cancelled: nat, prec: nat)
    requires BitLength(W) + cancelled >= 64 * tot && rlen < tot && 64 * rlen >= cancelled + prec + 2
    ensures W / Pow(tot - rlen) >= 0 && BitLength(W / Pow(tot - rlen)) >= prec + 2
  {
    hide P2, BitLength, Pow;
    var n := tot - rlen;
    P2Pow(n);
    DivModFacts(W, Pow(n));
    var hi, lo := W / Pow(n), W % Pow(n);
    PositiveLength(hi);
    if hi > 0 {
      LengthDropped(W, 64 * n, hi, lo);
    } else {
      MulUnit(Pow(n));
      LengthWithin(W, 64 * n);
    }
  }

  /** The sum or difference of the mantissas is long enough. */
  lemma SumLength(x: nat, y: nat, sub: bool, d: nat, tot: nat, cancelled: nat)
    requires tot >= 1 && x >= P2(64 * tot - 1) && d <= 64 * tot && (sub ==> x >= y)
    requires sub && d >= 2 ==> cancelled >= 1 && y < P2(64 * tot - d)
    requires sub && d <= 1 ==> BitLength(x - y) + cancelled >= 64 * tot
    ensures BitLength(if sub then x - y else x + y) + cancelled >= 64 * tot
  {
    hide P2, BitLength;
    if !sub {
      LengthAtLeast(x + y, 64 * tot);
    } else if d >= 2 {
      HalfPower(64 * tot - 1);
      P2Monotone(64 * tot - d, 64 * tot - 2);
      LengthAtLeast(x - y, 64 * tot - 1);
    }
  }

  /** What the limb loops leave, as numbers. */
  lemma SumValue(R: seq<limb>, x: nat, y: nat, sub: bool, carry: limb, tot: nat, rlen: nat)
    requires x < Pow(tot) && y < Pow(tot) && |R| == tot && rlen <= tot && (sub ==> x >= y)
    requires SumInv(R, LimbsBelow(x, tot), LimbsBelow(y, tot), sub, carry)
    ensures
      var W := if sub then x - y else x + y;
      var top := if !sub && carry == 1 then Pow(rlen) else 0;
      W / Pow(tot - rlen) == Val(R[tot - rlen..]) + top && W % Pow(tot - rlen) == Val(R[..tot - rlen])
  {
    hide Val, Pow;
    var n := tot - rlen;
    LimbsBelowValue(x, tot);
    LimbsBelowValue(y, tot);
    if sub {
      BorrowDone(R, LimbsBelow(x, tot), LimbsBelow(y, tot), 1, 0, 1 - carry);
      MulUnit(Pow(tot));
      ValBound(R);
    } else {
      LinearDone(R, LimbsBelow(x, tot), LimbsBelow(y, tot), 1, 0, carry);
      MulUnit(Pow(tot));
    }
    MulUnit(y);
    PowAdd(n, rlen);
    ValSplit(R, n);
    ValBound(R[..n]);
    var top := if !sub && carry == 1 then Pow(rlen) else 0;
    MulDist(Val(R[n..]), top, Pow(n));
    MulSwap(Pow(n), Val(R[n..]));
    MulSwap(Pow(n), Pow(rlen));
    DivModUnique(if sub then x - y else x + y, Pow(n), Val(R[n..]) + top, Val(R[..n]));
  }

  /** A carry limb above a sticky mantissa. */
  lemma CarryAbove(v: nat, exact: bool, rlen: nat)
    requires rlen >= 1
    ensures Sticky(v, exact) + Pow(rlen) == Sticky(v + Pow(rlen), exact)
  {
    assert Pow(rlen) == Pow(rlen - 1) * BASE;
    assert Pow(rlen) % 2 == 0;
  }

  // Values.

  /** The magnitudes of the operands in the common unit. */
  lemma CommonUnit(a: seq<limb>, ae: int, b: seq<limb>, be: int, tot: nat)
    requires ae >= be && Aligned(|a|, |b|, ae - be, tot)
    ensures Magnitude(Val(a), ae - 64 * |a|) == (First(a, tot) as real) * Scale(ae - 64 * tot)
    ensures Magnitude(Val(b), be - 64 * |b|) == (Second(b, ae - be, tot) as real) * Scale(ae - 64 * tot)
  {
    hide Val, Pow, P2, Scale, First, Second, Padded, Magnitude;
    PaddedIs(a, tot);
    SecondValue(b, ae - be, tot);
    P2Pow(tot - |a|);
    UnitOf(Val(a), 64 * (tot - |a|), ae - 64 * tot);
    UnitOf(Val(b), 64 * (tot - |b|) - (ae - be), ae - 64 * tot);
  }

  lemma PaddedIs(a: seq<limb>, tot: nat)
    requires |a| <= tot
    ensures First(a, tot) == Mul(Val(a), Pow(tot - |a|))
  {
    PaddedValue(a, tot - |a|);
  }

  lemma UnitOf(v: nat, j: nat, e: int)
    ensures Magnitude(v, j + e) == (Mul(v, P2(j)) as real) * Scale(e)
  {
    hide P2, Scale;
    ScaleAdd(j, e);
    BitsScale(j);
    RealMul(v, P2(j));
    Regroup(v as real, P2(j) as real, Scale(e));
  }

  /** The exact result is W units of the common unit; its upper part is what is rounded. */
  lemma UpperPartOf(W: nat, e: int, n: nat) returns (x: real)
    ensures (W as real) * Scale(e) == x * Scale(e + 64 * n) && W / Pow(n) >= 0
            && HasFloor(x, W / Pow(n), W % Pow(n) == 0)
  {
    hide Scale, Pow, Mul;
    ScaleAdd(64 * n, e);
    UnitScale(64 * n);
    PowerScale(n);
    x := (W as real) * Scale(-64 * n);
    DivModFacts(W, Pow(n));
    RealMul(W / Pow(n), Pow(n));
    RealMul(W / Pow(n) + 1, Pow(n));
    NextMultiple(W / Pow(n), Pow(n));
    var p, p', s := Scale(64 * n), Scale(-64 * n), Scale(e);
    assert x * p == (W as real) * (p * p');
    assert x * (p * s) == (x * p) * s;
    FloorNumbers(x, W / Pow(n), Pow(n) as real, W, Mul(W / Pow(n), Pow(n)), Mul(W / Pow(n) + 1, Pow(n)));
  }

  lemma NextMultiple(q: int, p: int)
    ensures Mul(q + 1, p) == Mul(q, p) + p
  {
    MulDist(q, 1, p);
  }

  lemma SumCorrect(W: nat, e: int, n: nat, M: nat, prec: nat, neg: bool, mode: Mode, n': nat, e': int, inexact: bool)
    requires W > 0 && prec >= 1 && W / Pow(n) >= 0 && M == Sticky(W / Pow(n), W % Pow(n) == 0)
    requires n == 0 || BitLength(W / Pow(n)) >= prec + 2
    requires Rounded(M, e + 64 * n, prec, neg, mode, n', e', inexact)
    ensures RoundedReal((W as real) * Scale(e), prec, neg, mode, n', e', inexact)
  {
    hide Scale, Pow, Rounded, RoundedReal, BitLength;
    var x := UpperPartOf(W, e, n);
    if n == 0 {
      PowNone();
      DivModUnique(W, 1, W, 0);
    } else {
      PositiveLength(W / Pow(n));
    }
    StickyCorrect((W as real) * Scale(e), x, W / Pow(n), W % Pow(n) == 0, e + 64 * n, prec, neg, mode, n', e', inexact);
  }

  // The operation.

  /** The exponent leaves room for the limbs: no underflow. */
  ghost predicate Roomy(a: Bf)
    reads a
  {
    a.Normal() ==> a.Unit() > EXP_ZERO + 128
  }

  /** precl */
  method ResultLength(a: seq<limb>, b: seq<limb>, d: nat, sub: bool, prec: nat, ghost W: nat) returns (rlen: nat)
    requires prec >= 1 && |a| >= 1 && a[|a| - 1] >= HALF && |b| >= 1 && (sub ==> Larger(a, b, d) > Smaller(a, b, d))
    requires W == if sub then Larger(a, b, d) - Smaller(a, b, d) else Larger(a, b, d) + Smaller(a, b, d)
    ensures 1 <= rlen <= TotalLength(|a|, |b|, d)
    ensures
      var n := TotalLength(|a|, |b|, d) - rlen;
      W / Pow(n) >= 0 && (n == 0 || BitLength(W / Pow(n)) >= prec + 2)
  {
    hide First, Second, Pow, P2, BitLength;
    ghost var tot := TotalLength(|a|, |b|, d);
    TotalAligned(|a|, |b|, d);
    FirstRange(a, tot);
    SecondRange(b, d, tot);
    var cancelled := 0;
    if sub {
      if d <= 1 {
        cancelled := CountCancelledBits(a, b, d, tot);
      } else {
        cancelled := 1;
      }
    }
    SumLength(Larger(a, b, d), Smaller(a, b, d), sub, d, tot, cancelled);
    // two bits below the precision decide the rounding
    var precl := (cancelled + prec + 2 + 64 - 1) / 64;
    rlen := if precl < TotalLength(|a|, |b|, d) then precl else TotalLength(|a|, |b|, d);
    if rlen < tot {
      EnoughBits(W, tot, rlen, cancelled, prec);
    }
    QuotientNatural(W, Pow(tot - rlen));
  }

  /** The mantissa before rounding. */
  lemma MantissaValue(R: seq<limb>, tab: seq<limb>, x: nat, y: nat, sub: bool, carry: limb, tot: nat, rlen: nat,
                      t: seq<limb>)
    requires x < Pow(tot) && y < Pow(tot) && |R| == tot && 1 <= rlen <= tot && |tab| == rlen && (sub ==> x >= y)
             && carry <= 1
    requires SumInv(R, LimbsBelow(x, tot), LimbsBelow(y, tot), sub, carry)
    requires Val(tab) == Sticky(Val(R[tot - rlen..]), Val(R[..tot - rlen]) == 0)
    requires t == if !sub && carry != 0 then tab + [1] else tab
    ensures
      var W, n := if sub then x - y else x + y, tot - rlen;
      W / Pow(n) >= 0 && Val(t) == Sticky(W / Pow(n), W % Pow(n) == 0)
  {
    hide Val, Pow, Sticky, SumInv, LimbsBelow;
    SumValue(R, x, y, sub, carry, tot, rlen);
    ValSnoc(tab, 1);
    MulUnit(Pow(rlen));
    CarryAbove(Val(R[tot - rlen..]), Val(R[..tot - rlen]) == 0, rlen);
  }

  lemma PositivePart(W: nat, n: nat, M: nat)
    requires W > 0 && W / Pow(n) >= 0 && M == Sticky(W / Pow(n), W % Pow(n) == 0)
    ensures M > 0
  {
    hide Pow;
    DivModFacts(W, Pow(n));
    MulUnit(Pow(n));
  }

  /** The exact sum of the magnitudes, or their difference. */
  ghost function Combined(a: Bf, b: Bf, sub: bool): real
    reads a, b
  {
    if sub then Magnitude(Val(a.tab), a.Unit()) - Magnitude(Val(b.tab), b.Unit())
    else Magnitude(Val(a.tab), a.Unit()) + Magnitude(Val(b.tab), b.Unit())
  }

  lemma CombinedValue(a: Bf, b: Bf, sub: bool, tot: nat, x: nat, y: nat)
    requires a.expn >= b.expn && Aligned(|a.tab|, |b.tab|, a.expn - b.expn, tot) && (sub ==> x >= y)
    requires x == First(a.tab, tot) && y == Second(b.tab, a.expn - b.expn, tot)
    ensures Combined(a, b, sub) == ((if sub then x - y else x + y) as real) * Scale(a.expn - 64 * tot)
  {
    hide Val, Scale, First, Second, Magnitude;
    CommonUnit(a.tab, a.expn, b.tab, b.expn, tot);
    Distribute(x, y, Scale(a.expn - 64 * tot));
  }

  lemma Distribute(x: int, y: int, e: real)
    ensures ((x - y) as real) * e == (x as real) * e - (y as real) * e
    ensures ((x + y) as real) * e == (x as real) * e + (y as real) * e
  {}

  lemma UnitRoom(a: Bf, b: Bf)
    requires a.Normal() && b.Normal() && a.expn >= b.expn && Roomy(a) && Roomy(b)
    ensures a.expn - 64 * TotalLength(|a.tab|, |b.tab|, a.expn - b.expn) > EXP_ZERO + 64
  {}

  /** The exact sum or difference of the aligned mantissas. */
  ghost function SumOf(a: seq<limb>, b: seq<limb>, d: nat, sub: bool): nat
    requires sub ==> Larger(a, b, d) >= Smaller(a, b, d)
  {
    if sub then Larger(a, b, d) - Smaller(a, b, d) else Larger(a, b, d) + Smaller(a, b, d)
  }

  /** M stands for W in the rounding: n limbs are cut off, with a sticky bit. */
  ghost predicate StandsFor(M: nat, W: nat, n: nat, prec: nat) {
    && M > 0 && W > 0 && W / Pow(n) >= 0 && M == Sticky(W / Pow(n), W % Pow(n) == 0)
    && (n == 0 || BitLength(W / Pow(n)) >= prec + 2)
  }

  lemma StandsPositive(M: nat, W: nat, n: nat, prec: nat)
    requires StandsFor(M, W, n, prec)
    ensures M > 0
  {}

  /** The mantissa of the sum before it is rounded, and its exponent. */
  method AlignedSum(a: seq<limb>, ae: int, b: seq<limb>, be: int, sub: bool, prec: nat)
    returns (t: seq<limb>, expn: int, ghost n: nat)
    requires |a| >= 1 && a[|a| - 1] >= HALF && |b| >= 1 && prec >= 1 && ae >= be
    requires sub ==> Larger(a, b, ae - be) > Smaller(a, b, ae - be)
    ensures StandsFor(Val(t), SumOf(a, b, ae - be, sub), n, prec)
    ensures expn - 64 * |t| == ae - 64 * TotalLength(|a|, |b|, ae - be) + 64 * n
  {
    hide Val, Pow, P2, First, Second, SumInv, LimbsBelow, Sticky, BitLength;
    expn := ae;
    var d := ae - be;
    var tot := TotalLength(|a|, |b|, d);
    TotalAligned(|a|, |b|, d);
    ghost var W := SumOf(a, b, d, sub);
    var rlen := ResultLength(a, b, d, sub, prec, W);
    n := tot - rlen;
    var tab, carry;
    ghost var R;
    tab, carry, R := SumMantissas(a, b, d, rlen, tot, sub);
    t := tab;
    // a sum can have one limb more, a difference cannot
    if !sub && carry != 0 {
      t := t + [1];
      expn := expn + 64;
    }
    BothInRange(a, b, d, tot);
    MantissaValue(R, tab, First(a, tot), Second(b, d, tot), sub, carry, tot, rlen, t);
    PositivePart(W, n, Val(t));
  }

  /** Two numbers that are not zero, the larger first. */
  method AddNormal(r: Bf, a: Bf, b: Bf, sub: bool, neg: bool, prec: nat, mode: Mode) returns (inexact: bool)
    requires r != a && r != b && a.Normal() && b.Normal() && prec >= 1 && Roomy(a) && Roomy(b) && a.expn >= b.expn
    requires sub ==> Larger(a.tab, b.tab, a.expn - b.expn) > Smaller(a.tab, b.tab, a.expn - b.expn)
    modifies r
    ensures r.Normal() && r.sign == neg
            && RoundedReal(Combined(a, b, sub), prec, neg, mode, Val(r.tab), r.Unit(), inexact)
  {
    hide Larger, Smaller, SumOf, StandsFor, Rounded, RoundedReal, Combined, TotalLength, Val;
    UnitRoom(a, b);
    r.sign := neg;
    var tab, expn;
    ghost var n;
    tab, expn, n := AlignedSum(a.tab, a.expn, b.tab, b.expn, sub, prec);
    r.tab, r.expn := tab, expn;
    assert Val(tab) > 0 by { StandsPositive(Val(tab), SumOf(a.tab, b.tab, a.expn - b.expn, sub), n, prec); }
    ghost var W := SumOf(a.tab, b.tab, a.expn - b.expn, sub);
    inexact := BfNormalizeAndRound(r, prec, mode);
    SumRounded(a, b, sub, W, n, Val(tab), prec, neg, mode, Val(r.tab), r.Unit(), inexact);
  }

  lemma SumRounded(a: Bf, b: Bf, sub: bool, W: nat, n: nat, M: nat, prec: nat, neg: bool, mode: Mode, n': nat, e': int,
                   inexact: bool)
    requires a.expn >= b.expn && prec >= 1
             && (sub ==> Larger(a.tab, b.tab, a.expn - b.expn) >= Smaller(a.tab, b.tab, a.expn - b.expn))
    requires W == SumOf(a.tab, b.tab, a.expn - b.expn, sub) && StandsFor(M, W, n, prec)
    requires Rounded(M, a.expn - 64 * TotalLength(|a.tab|, |b.tab|, a.expn - b.expn) + 64 * n, prec, neg, mode, n', e',
                     inexact)
    ensures RoundedReal(Combined(a, b, sub), prec, neg, mode, n', e', inexact)
  {
    hide First, Second, Sticky, Rounded, RoundedReal, Combined, BitLength, Scale, Pow;
    var d := a.expn - b.expn;
    var tot := TotalLength(|a.tab|, |b.tab|, d);
    TotalAligned(|a.tab|, |b.tab|, d);
    CombinedValue(a, b, sub, tot, First(a.tab, tot), Second(b.tab, d, tot));
    SumCorrect(W, a.expn - 64 * tot, n, M, prec, neg, mode, n', e', inexact);
  }

  lemma BothInRange(a: seq<limb>, b: seq<limb>, d: nat, tot: nat)
    requires 1 <= |a| <= tot && |b| <= tot && a[|a| - 1] >= HALF && d <= 64 * tot
    ensures 0 < First(a, tot) < Pow(tot) && Second(b, d, tot) < Pow(tot)
  {
    hide Val, Pow, P2, First, Second;
    FirstRange(a, tot);
    SecondRange(b, d, tot);
  }

  /** The value of a number with its sign. */
  ghost function Signed(a: Bf): real
    reads a
  {
    if a.sign then -Magnitude(Val(a.tab), a.Unit()) else Magnitude(Val(a.tab), a.Unit())
  }

  /** The exact result of the operation. */
  ghost function ExactSum(a: Bf, b: Bf, bNeg: bool): real
    reads a, b
  {
    if bNeg then Signed(a) - Signed(b) else Signed(a) + Signed(b)
  }

  function Absolute(x: real): real {
    if x < 0.0 then -x else x
  }

  /** r is the real x rounded once; x is the sum of two numbers with the given signs. */
  ghost predicate IsRounded(r: Bf, x: real, inexact: bool, aSign: bool, bSign: bool, prec: nat, mode: Mode)
    reads r
  {
    if x == 0.0 then r.Zero() && !inexact && r.sign == if aSign == bSign then aSign else mode == Down
    else
      && r.Normal() && r.sign == (x < 0.0)
      && RoundedReal(Absolute(x), prec, r.sign, mode, Val(r.tab), r.Unit(), inexact)
  }

  /** bf_add_internal: the exact sum or difference rounded once; an exact zero is negative only when rounding
      down, or when both operands are negative zeros. */
  method BfAddInternal(r: Bf, a0: Bf, b0: Bf, prec: nat, mode: Mode, bNeg: bool) returns (inexact: bool)
    requires r != a0 && r != b0 && Finite(a0) && Finite(b0) && prec >= 1 && Roomy(a0) && Roomy(b0)
    modifies r
    ensures IsRounded(r, ExactSum(a0, b0, bNeg), inexact, a0.sign, b0.sign != bNeg, prec, mode)
  {
    hide Val, NotBelowMagnitude, RoundedReal, Larger, Smaller, Combined, ExactSum, IsRounded;
    var a, b := a0, b0;
    var aSign, bSign := a.sign, b.sign != bNeg;
    var isSub := aSign != bSign;
    var cmpRes := BfCmpU(a, b);
    if cmpRes < 0 {
      a, b := b0, a0;
      aSign := bSign;
    }
    SumIs(a0, b0, bNeg, a, b, isSub, aSign, cmpRes < 0);
    Outcome(a, b, cmpRes == 0);
    ghost var x := ExactSum(a0, b0, bNeg);
    if cmpRes == 0 && isSub {
      r.sign, r.expn, r.tab := mode == Down, EXP_ZERO, [];
      inexact := false;
      ZeroSum(r, inexact, a0.sign, b0.sign != bNeg, prec, mode);
    } else if a.tab == [] || b.tab == [] {
      inexact := AddZero(r, a, b, isSub, aSign, prec, mode);
      if a.tab == [] {
        ZeroSum(r, inexact, a0.sign, b0.sign != bNeg, prec, mode);
      } else {
        WithSign(r, x, Combined(a, b, isSub), inexact, a0.sign, b0.sign != bNeg, prec, mode);
      }
    } else {
      inexact := AddNormal(r, a, b, isSub, aSign, prec, mode);
      WithSign(r, x, Combined(a, b, isSub), inexact, a0.sign, b0.sign != bNeg, prec, mode);
    }
  }

  /** A positive combination of the magnitudes, with the sign of the larger operand. */
  lemma WithSign(r: Bf, x: real, c: real, inexact: bool, aSign: bool, bSign: bool, prec: nat, mode: Mode)
    requires c > 0.0 && x == if r.sign then -c else c
    requires r.Normal() && RoundedReal(c, prec, r.sign, mode, Val(r.tab), r.Unit(), inexact)
    ensures IsRounded(r, x, inexact, aSign, bSign, prec, mode)
  {}

  lemma ZeroSum(r: Bf, inexact: bool, aSign: bool, bSign: bool, prec: nat, mode: Mode)
    requires r.Zero() && !inexact && r.sign == if aSign == bSign then aSign else mode == Down
    ensures IsRounded(r, 0.0, inexact, aSign, bSign, prec, mode)
  {}

  lemma ZeroMagnitude(a: Bf)
    requires Finite(a)
    ensures (a.tab == [] <==> a.Zero()) && if a.tab == [] then Val(a.tab) == 0 && Magnitude(Val(a.tab), a.Unit()) == 0.0
      else Val(a.tab) > 0 && Magnitude(Val(a.tab), a.Unit()) > 0.0
  {
    hide Scale;
    if a.tab != [] {
      TopPositive(a.tab);
      hide Val;
      RealOrder(0.0, Val(a.tab) as real, Scale(a.Unit()));
    }
  }

  /** What the comparison tells about the result. */
  lemma Outcome(a: Bf, b: Bf, equal: bool)
    requires Finite(a) && Finite(b) && NotBelowMagnitude(a, b, equal)
    ensures a.expn >= b.expn && (a.tab == [] ==> b.tab == [] && equal)
    ensures if equal then Combined(a, b, true) == 0.0 else Combined(a, b, true) > 0.0
    ensures if a.tab == [] then Combined(a, b, false) == 0.0 else Combined(a, b, false) > 0.0
    ensures !equal && a.tab != [] && b.tab != []
            ==> Larger(a.tab, b.tab, a.expn - b.expn) > Smaller(a.tab, b.tab, a.expn - b.expn)
  {
    hide Val, Magnitude, First, Second, Scale;
    ZeroMagnitude(a);
    ZeroMagnitude(b);
    if a.tab != [] && b.tab != [] {
      var d := a.expn - b.expn;
      var tot := TotalLength(|a.tab|, |b.tab|, d);
      TotalAligned(|a.tab|, |b.tab|, d);
      var x, y := First(a.tab, tot), Second(b.tab, d, tot);
      CombinedValue(a, b, true, tot, x, y);
      RealOrder(0.0, (x - y) as real, Scale(a.expn - 64 * tot));
    } else if a.tab == [] {
      NothingLarger();
    }
  }

  lemma NothingLarger()
    ensures Larger([], [], 0) == Smaller([], [], 0)
  {
    P2Nothing(0);
  }

  /** The exact sum in terms of the larger magnitude and the smaller. */
  lemma SumIs(a0: Bf, b0: Bf, bNeg: bool, a: Bf, b: Bf, isSub: bool, aSign: bool, swapped: bool)
    requires isSub == (a0.sign != (b0.sign != bNeg))
    requires
      if swapped then a == b0 && b == a0 && aSign == (b0.sign != bNeg)
      else a == a0 && b == b0 && aSign == a0.sign
    ensures ExactSum(a0, b0, bNeg) == if aSign then -Combined(a, b, isSub) else Combined(a, b, isSub)
  {
    hide Val, Magnitude;
  }

  /** With a zero operand the other one is rounded. */
  lemma ZeroOperand(a: Bf, b: Bf, sub: bool)
    requires Finite(a) && Finite(b) && b.tab == []
    ensures Combined(a, b, sub) == Magnitude(Val(a.tab), a.Unit())
    ensures Val(a.tab) == 0 <==> a.tab == []
  {
    hide Val, Magnitude;
    ZeroMagnitude(a);
    ZeroMagnitude(b);
  }

  /** The other operand is zero. */
  method AddZero(r: Bf, a: Bf, b: Bf, sub: bool, neg: bool, prec: nat, mode: Mode) returns (inexact: bool)
    requires r != a && r != b && Finite(a) && Finite(b) && b.tab == [] && prec >= 1 && Roomy(a)
    modifies r
    ensures r.sign == neg && if a.tab == [] then r.Zero() && !inexact
      else r.Normal() && RoundedReal(Combined(a, b, sub), prec, neg, mode, Val(r.tab), r.Unit(), inexact)
  {
    ZeroOperand(a, b, sub);
    hide Val, Magnitude, Combined, Rounded, RoundedReal;
    ghost var v, unit := Val(a.tab), a.Unit();
    r.tab, r.expn, r.sign := a.tab, a.expn, neg;
    inexact := BfNormalizeAndRound(r, prec, mode);
    if v > 0 {
      WholeCorrect(v, unit, prec, neg, mode, Val(r.tab), r.Unit(), inexact);
    }
  }

  lemma WholeCorrect(n: nat, e: int, prec: nat, neg: bool, mode: Mode, n': nat, e': int, inexact: bool)
    requires n > 0 && prec >= 1 && Rounded(n, e, prec, neg, mode, n', e', inexact)
    ensures RoundedReal(Magnitude(n, e), prec, neg, mode, n', e', inexact)
  {
    hide Scale, Rounded, RoundedReal;
    StickyCorrect(Magnitude(n, e), n as real, n, true, e, prec, neg, mode, n', e', inexact);
  }
}
