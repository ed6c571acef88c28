/** The square root of floating point numbers (libbf.c bf_sqrt), for positive finite operands. */
module FloatSqrt {
  import opened Limbs
  import opened LimbArith
  import opened LimbSqrt
  import opened BitFields
  import opened FloatSpec
  import opened FloatRound
  import opened FloatValue
  import opened FloatCorrect
  import opened FloatDiv

  /** The radicand of 2 n limbs: N over D rounded down, where D stands for the limbs and the bit that are cut
      off; rest tells whether anything was. */
  ghost predicate Truncated(a1: nat, rest: bool, N: nat, D: nat) {
    D > 0 && Mul(a1, D) <= N < Mul(a1 + 1, D) && (rest <==> N != Mul(a1, D))
  }

  function Dropped(la: nat, n: nat): nat {
    if la > 2 * n then la - 2 * n else 0
  }

  function Added(la: nat, n: nat): nat {
    if la < 2 * n then 2 * n - la else 0
  }

  ghost function Numerator(a: seq<limb>, n: nat): nat {
    MulMono(0, Val(a), Pow(Added(|a|, n)));
    Mul(Val(a), Pow(Added(|a|, n)))
  }

  ghost function Denominator(la: nat, n: nat, odd: bool): nat {
    MulMono(0, Pow(Dropped(la, n)), if odd then 2 else 1);
    Mul(Pow(Dropped(la, n)), if odd then 2 else 1)
  }

  /** The top 2 n limbs of a, or all of them above zeros. */
  method TopLimbs(a: seq<limb>, n: nat) returns (t: array<limb>, rest: bool)
    requires |a| >= 1 && n >= 1
    ensures fresh(t) && t.Length == 2 * n && t[2 * n - 1] == a[|a| - 1]
    ensures Truncated(Val(t[0..2 * n]), rest, Numerator(a, n), Pow(Dropped(|a|, n)))
  {
    hide Val, Pow, Mul, Truncated;
    var n1 := if 2 * n < |a| then 2 * n else |a|;
    t := new limb[2 * n](i => 0);
    forall i | 0 <= i < n1 {
      t[2 * n - n1 + i] := a[|a| - n1 + i];
    }
    ghost var filled := t[..];
    assert filled == seq(2 * n - n1, i => 0) + a[|a| - n1..];
    var k := 0;
    rest := false;
    while k < |a| - n1
      invariant 0 <= k <= |a| - n1 && !rest
      invariant forall j :: 0 <= j < k ==> a[j] == 0
      invariant t[..] == filled
    {
      if a[k] != 0 {
        rest := true;
        break;
      }
      k := k + 1;
    }
    assert t[0..2 * n] == filled;
    TopValue(a, n, n1, t[0..2 * n], rest);
  }

  lemma TopValue(a: seq<limb>, n: nat, n1: nat, t: seq<limb>, rest: bool)
    requires n1 == (if 2 * n < |a| then 2 * n else |a|) && t == seq(2 * n - n1, i => 0) + a[|a| - n1..]
    requires rest <==> exists k :: 0 <= k < |a| - n1 && a[k] != 0
    ensures Truncated(Val(t), rest, Numerator(a, n), Pow(Dropped(|a|, n)))
  {
    hide Val, Pow;
    var z: seq<limb> := seq(2 * n - n1, i => 0);
    ValConcat(z, a[|a| - n1..]);
    ValZeros(z);
    var low := a[..|a| - n1];
    ValSplit(a, |a| - n1);
    ValBound(low);
    ValZeros(low);
    assert forall k :: 0 <= k < |a| - n1 ==> low[k] == a[k];
    if n1 < |a| {
      assert Pow(0) == 1 by { PowNone(); }
      MulSwap(Pow(|a| - n1), Val(t));
      MulDist(Val(t), 1, Pow(|a| - n1));
      MulUnit(Val(a));
    } else {
      assert low == [] && a[0..] == a;
      PowNone();
      MulUnit(Val(t));
      MulUnit(Val(t) + 1);
      MulSwap(Pow(2 * n - n1), Val(a));
    }
  }

  /** The root with its sticky bit. */
  ghost predicate StickyRoot(q: nat, s: nat, N: nat, D: nat) {
    D > 0 && Mul(Mul(s, s), D) <= N < Mul(Mul(s + 1, s + 1), D) && q == Sticky(s, N == Mul(Mul(s, s), D))
  }

  lemma RootFacts(a1: nat, rest: bool, N: nat, D: nat, s: nat, r: nat, q: nat)
    requires Truncated(a1, rest, N, D) && SqrtRem(a1, s, r) && q == Sticky(s, !rest && r == 0)
    ensures StickyRoot(q, s, N, D)
  {
    var s2, t2 := s * s, (s + 1) * (s + 1);
    assert t2 == s2 + 2 * s + 1;
    MulMono(s2, a1, D);
    MulMono(a1 + 1, t2, D);
    MulDist(s2, r, D);
    if r > 0 {
      MulMono(1, r, D);
    }
  }

  /** Halving the radicand of an odd exponent. */
  lemma HalvedFacts(a0: nat, rest0: bool, N: nat, D: nat, a1: nat, bit: nat)
    requires Truncated(a0, rest0, N, D) && Mul(a1, 2) + bit == a0 && bit < 2
    ensures Mul(D, 2) >= 0 && Truncated(a1, rest0 || bit != 0, N, Mul(D, 2))
  {
    MulDist(a1 * 2, bit, D);
    assert a1 * 2 * D == a1 * (D * 2) && (a1 + 1) * (D * 2) == a1 * (D * 2) + D * 2;
    MulDist(a0, 1, D);
    assert bit * D == if bit == 0 then 0 else D;
  }

  /** The mantissa of the root, n limbs. */
  method SqrtMantissa(a: seq<limb>, n: nat, odd: bool) returns (q: seq<limb>, ghost s: nat)
    requires |a| >= 1 && a[|a| - 1] >= HALF && n >= 1
    ensures |q| == n && s >= P2(64 * n - 1) && q[n - 1] >= HALF
    ensures StickyRoot(Val(q), s, Numerator(a, n), Denominator(|a|, n, odd))
  {
    hide Val, Pow, Mul, P2, Truncated, StickyRoot, SqrtRem, Sticky;
    var a1, rest := TopLimbs(a, n);
    ghost var N, D0 := Numerator(a, n), Pow(Dropped(|a|, n));
    ghost var a0 := Val(a1[0..2 * n]);
    ghost var top := a1[2 * n - 1];
    MulUnit(D0);
    ghost var v := a1[0..2 * n];
    assert v[2 * n - 1] >= HALF;
    TopLength(v);
    if odd {
      var bit := MpShr(a1, 0, a1, 0, 2 * n, 1, 0);
      ShiftedByOne(a0, Val(a1[0..2 * n]), bit, 2 * n);
      HalvedFacts(a0, rest, N, D0, Val(a1[0..2 * n]), bit);
      rest := rest || bit != 0;
    }
    ghost var V := Val(a1[0..2 * n]);
    var t := new limb[n](i => 0);
    QuarterTop(a0, a1[0..2 * n], n, odd);
    assert a1[2 * n - 1] == a1[0..2 * n][2 * n - 1];
    MpSqrtRem(t, 0, a1, 0, n);
    s := Val(t[0..n]);
    var nz := MpScanNz(a1, 0, n + 1);
    q := t[..];
    assert q == t[0..n];
    q := SetSticky(q, rest || nz);
    RootFacts(V, rest, N, Denominator(|a|, n, odd), s, Val(a1[0..n + 1]), Val(q));
    RootLarge(V, s, Val(a1[0..n + 1]), n);
    StickyLarge(s, !(rest || nz), Val(q));
    LengthTop(q);
  }

  lemma ShiftedByOne(a0: nat, a1: nat, bit: nat, n: nat)
    requires bit < P2(1) && Mul(a1, P2(1)) + bit == a0 + Mul(0 % P2(1), Pow(n))
    ensures Mul(a1, 2) + bit == a0 && bit < 2
  {
    assert P2(1) == 2;
    MulUnit(Pow(n));
  }

  lemma QuarterTop(a0: nat, t: seq<limb>, n: nat, odd: bool)
    requires n >= 1 && |t| == 2 * n && a0 >= P2(64 * (2 * n) - 1)
    requires if odd then Mul(Val(t), 2) + 1 >= a0 else Val(t) == a0
    ensures t[2 * n - 1] >= QUARTER && Val(t) >= P2(128 * n - 2)
  {
    hide Val, Pow;
    HalfPower(128 * n - 1);
    assert Val(t) >= P2(128 * n - 2);
    var l := 2 * n - 1;
    ValTop(t);
    P2Limb();
    HalfPower(63);
    P2Pow(l);
    P2Add(64 * l, 62);
    hide P2;
    MulSwap(QUARTER, Pow(l));
    if t[l] < QUARTER {
      MulMono(t[l] + 1, QUARTER, Pow(l));
      MulDist(t[l], 1, Pow(l));
    }
  }

  lemma RootLarge(V: nat, s: nat, r: nat, n: nat)
    requires n >= 1 && SqrtRem(V, s, r) && V >= P2(128 * n - 2)
    ensures s >= P2(64 * n - 1)
  {
    P2Add(64 * n - 1, 64 * n - 1);
    hide P2;
    var t := P2(64 * n - 1);
    assert (s + 1) * (s + 1) == s * s + 2 * s + 1;
    MulSwap(t, s + 1);
    if s < t {
      MulMono(s + 1, t, s + 1);
      MulMono(s + 1, t, t);
    }
  }

  lemma StickyLarge(s: nat, exact: bool, q: nat)
    requires q == Sticky(s, exact)
    ensures q >= s
  {}

  // The real root.

  /** y is the root of the magnitude. */
  ghost predicate IsRoot(y: real, a: nat, ua: int) {
    y >= 0.0 && y * y == Magnitude(a, ua)
  }

  lemma FloorOfRoot(x: real, q: nat, s: nat, N: nat, D: nat)
    requires x >= 0.0 && StickyRoot(q, s, N, D) && (x * x) * (D as real) == N as real
    ensures HasFloor(x, s, N == Mul(Mul(s, s), D))
  {
    var t := s + 1;
    RealMul(s, s);
    RealMul(t, t);
    RealMul(Mul(s, s), D);
    RealMul(Mul(t, t), D);
    hide Mul;
    RootFloor(x, s as real, t as real, D as real, N as real, Mul(s, s) as real, Mul(t, t) as real);
  }

  lemma RootFloor(x: real, s: real, t: real, d: real, n: real, s2: real, t2: real)
    requires x >= 0.0 && s >= 0.0 && t >= 0.0 && d > 0.0 && (x * x) * d == n && s2 == s * s && t2 == t * t
    requires s2 * d <= n < t2 * d
    ensures s <= x < t && (x == s <==> n == s2 * d)
  {
    RealOrder(x * x, s2, d);
    RealOrder(x * x, t2, d);
    SquareOrder(x, s);
    SquareOrder(x, t);
  }

  lemma SquareOrder(x: real, y: real)
    requires x >= 0.0 && y >= 0.0
    ensures x < y <==> x * x < y * y
    ensures x == y <==> x * x == y * y
  {
    assert (y - x) * (y + x) == y * y - x * x;
    if x != y {
      RealOrder(y - x, 0.0, y + x);
      RealOrder(0.0, y - x, y + x);
    }
  }

  /** From the value of the operand to the mantissa. */
  lemma RootScaled(y: real, a: seq<limb>, ae: int, n: nat, odd: bool, e: int) returns (x: real)
    requires IsRoot(y, Val(a), ae - 64 * |a|) && n >= 1 && 2 * e == ae + (if odd then 1 else 0) - 128 * n
    ensures y == x * Scale(e) && x >= 0.0 && (x * x) * (Denominator(|a|, n, odd) as real) == Numerator(a, n) as real
  {
    hide Scale, P2, Pow, Val;
    var ua, o := ae - 64 * |a|, if odd then 1 else 0;
    var drop, add := Dropped(|a|, n), Added(|a|, n);
    UnitScale(e);
    ScaleAdd(e, e);
    ScaleAdd(64 * drop, o);
    ScaleAdd(2 * e, 64 * add);
    ScaleAdd(ua, 64 * drop + o);
    assert ua + (64 * drop + o) == 2 * e + 64 * add;
    PowerScale(drop);
    PowerScale(add);
    BitScale(odd);
    RealMul(Val(a), Pow(add));
    RealMul(Pow(drop), if odd then 2 else 1);
    hide Mul;
    x := y * Scale(-e);
    RootNumbers(x, y, Val(a) as real, Scale(e), Scale(-e), Scale(ua), Scale(64 * drop + o), Scale(64 * add));
  }

  lemma BitScale(odd: bool)
    ensures Scale(if odd then 1 else 0) == (if odd then 2 else 1) as real
  {
    assert P2(1) == 2 && P2(0) == 1;
  }

  lemma RootNumbers(x: real, y: real, a: real, e: real, e': real, ua: real, d: real, n: real)
    requires x == y * e' && e * e' == 1.0 && y >= 0.0 && e > 0.0 && y * y == a * ua && ua * d == (e * e) * n
    ensures y == x * e && x >= 0.0 && (x * x) * d == a * n
  {
    assert x * e == y * (e * e');
    if x < 0.0 {
      RealOrder(x, 0.0, e);
    }
    assert (x * x) * (e * e) == (x * e) * (x * e);
    assert ((x * x) * d) * (e * e) == ((x * x) * (e * e)) * d;
    assert (a * ua) * d == a * (ua * d);
    assert a * ((e * e) * n) == (a * n) * (e * e);
    assert e * e > 0.0;
    CancelReal((x * x) * d, a * n, e * e);
  }

  lemma SqrtCorrect(y: real, a: seq<limb>, ae: int, n: nat, odd: bool, q: nat, s: nat, e: int, prec: nat, mode: Mode,
                    n': nat, e': int, inexact: bool)
    requires IsRoot(y, Val(a), ae - 64 * |a|) && n >= 1 && 2 * e == ae + (if odd then 1 else 0) - 128 * n
    requires StickyRoot(q, s, Numerator(a, n), Denominator(|a|, n, odd)) && s >= P2(64 * n - 1)
    requires 64 * n >= prec + 2 && prec >= 1 && Rounded(q, e, prec, false, mode, n', e', inexact)
    ensures RoundedReal(y, prec, false, mode, n', e', inexact)
  {
    hide Scale, Pow, P2, Rounded, RoundedReal, Mul, IsRoot, Val, Numerator, Denominator;
    var x := RootScaled(y, a, ae, n, odd, e);
    var N, D := Numerator(a, n), Denominator(|a|, n, odd);
    FloorOfRoot(x, q, s, N, D);
    LengthAtLeast(s, 64 * n);
    StickyCorrect(y, x, s, N == Mul(Mul(s, s), D), e, prec, false, mode, n', e', inexact);
  }

  /** bf_sqrt: the real root rounded once. */
  method BfSqrt(r: Bf, a: Bf, prec: nat, mode: Mode) returns (inexact: bool)
    requires r != a && a.Normal() && !a.sign && prec >= 1
    requires (a.expn + 1) / 2 - 64 * ((2 * (prec + 2) + 2 * 64 - 1) / (2 * 64)) > EXP_ZERO
    modifies r
    ensures r.Normal() && !r.sign
    ensures forall y: real | IsRoot(y, Val(a.tab), a.Unit()) ::
      RoundedReal(y, prec, false, mode, Val(r.tab), r.Unit(), inexact)
  {
    hide Val, Pow, P2, Mul, Rounded, IsRoot, RoundedReal, StickyRoot, Numerator, Denominator;
    var n := (2 * (prec + 2) + 2 * 64 - 1) / (2 * 64);
    var odd := a.expn % 2 == 1;
    var q;
    ghost var s;
    q, s := SqrtMantissa(a.tab, n, odd);
    r.tab := q;
    r.sign := false;
    r.expn := (a.expn + 1) / 2;
    assert q[..n] == q;
    ghost var e := r.Unit();
    inexact := BfRound(r, prec, mode, n);
    forall y: real | IsRoot(y, Val(a.tab), a.Unit())
      ensures RoundedReal(y, prec, false, mode, Val(r.tab), r.Unit(), inexact)
    {
      SqrtCorrect(y, a.tab, a.expn, n, odd, Val(q), s, e, prec, mode, Val(r.tab), r.Unit(), inexact);
    }
  }
}
