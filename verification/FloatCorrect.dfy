/** Correct rounding of real numbers to a number of significant bits, and that it determines the result. */
module FloatCorrect {
  import opened Limbs
  import opened BitFields
  import opened NttSize
  import opened NttLoad
  import opened FloatSpec
  import opened FloatRound
  import opened FloatValue

  /** A unit of 2^u gives the real y exactly prec bits before the point. */
  ghost predicate Binade(y: real, prec: nat, u: int) {
    Scale(u + prec - 1) <= y < Scale(u + prec)
  }

  /** The real y in units of 2^u. */
  ghost function Units(y: real, u: int): real {
    y * Scale(-u)
  }

  /** n' * 2^e' is m units of 2^u, and m is y in these units rounded to an integer. */
  ghost predicate RoundedAt(y: real, prec: nat, neg: bool, mode: Mode, n': nat, e': int, inexact: bool, m: nat,
                            u: int) {
    && Binade(y, prec, u)
    && RoundsTo(m, 1, Units(y, u), neg, mode)
    && Magnitude(n', e') == Magnitude(m, u)
    && inexact == (mode.Faithful? || Magnitude(n', e') != y)
  }

  /** The number n' * 2^e' is the positive real y rounded to prec significant bits. */
  ghost predicate RoundedReal(y: real, prec: nat, neg: bool, mode: Mode, n': nat, e': int, inexact: bool) {
    exists m: nat, u: int :: RoundedAt(y, prec, neg, mode, n', e', inexact, m, u)
  }

  // There is only one result.

  lemma BinadeUnique(y: real, prec: nat, u: int, u': int)
    requires Binade(y, prec, u) && Binade(y, prec, u')
    ensures u == u'
  {
    hide Scale;
    if u < u' {
      ScaleMonotone(u + prec, u' + prec - 1);
    } else if u' < u {
      ScaleMonotone(u' + prec, u + prec - 1);
    }
  }

  lemma RoundsOnce(m: int, m': int, z: real, neg: bool, mode: Mode)
    requires RoundsTo(m, 1, z, neg, mode) && RoundsTo(m', 1, z, neg, mode) && !mode.Faithful?
    ensures m == m'
  {}

  /** In every mode but the faithful one, the real determines the rounded number and the flag. */
  lemma RoundedUnique(y: real, prec: nat, neg: bool, mode: Mode, n: nat, e: int, inexact: bool, n': nat, e': int,
                      inexact': bool)
    requires !mode.Faithful?
    requires RoundedReal(y, prec, neg, mode, n, e, inexact) && RoundedReal(y, prec, neg, mode, n', e', inexact')
    ensures Same(n, e, n', e') && inexact == inexact'
  {
    hide Binade, RoundsTo, Magnitude, Scale, Units;
    var m: nat, u: int :| RoundedAt(y, prec, neg, mode, n, e, inexact, m, u);
    var m': nat, u': int :| RoundedAt(y, prec, neg, mode, n', e', inexact', m', u');
    BinadeUnique(y, prec, u, u');
    RoundsOnce(m, m', Units(y, u), neg, mode);
    SameMagnitude(n, e, n', e');
  }

  // A number that fits the precision.

  /** An integer is rounded to itself. */
  lemma IntegerStays(m: int, z: real, j: int, neg: bool, mode: Mode)
    requires RoundsTo(m, 1, z, neg, mode) && z == j as real
    ensures m == j
  {}

  lemma IntegerRounds(m: int, neg: bool, mode: Mode)
    ensures RoundsTo(m, 1, m as real, neg, mode)
  {}

  /** In smaller units a number is an integer too. */
  lemma InUnits(n: nat, e: int, u: int)
    requires u <= e
    ensures Mul(n, P2(e - u)) >= 0 && Units(Magnitude(n, e), u) == Mul(n, P2(e - u)) as real
    ensures Magnitude(Mul(n, P2(e - u)), u) == Magnitude(n, e)
  {
    hide Scale, P2;
    Rescaled(n, e, u);
    UnitScale(u);
    var w := Mul(n, P2(e - u)) as real;
    Regroup(w, Scale(u), Scale(-u));
  }

  /** A number that has no more than prec bits is not changed. */
  lemma FittingStays(n: nat, e: int, prec: nat, neg: bool, mode: Mode, n': nat, e': int, inexact: bool)
    requires n < P2(prec) && RoundedReal(Magnitude(n, e), prec, neg, mode, n', e', inexact)
    ensures Magnitude(n', e') == Magnitude(n, e) && inexact == mode.Faithful?
  {
    hide Scale, P2, RoundsTo, Magnitude, Units;
    var y := Magnitude(n, e);
    var m: nat, u: int :| RoundedAt(y, prec, neg, mode, n', e', inexact, m, u);
    MagnitudeOrder(n, P2(prec), e);
    PowerMagnitude(prec, e);
    if u > e {
      ScaleMonotone(prec + e, u + prec - 1);
    }
    InUnits(n, e, u);
    IntegerStays(m, Units(y, u), Mul(n, P2(e - u)), neg, mode);
  }

  // Rounding a mantissa with a sticky bit.

  lemma ScaledOrder(x: real, g: int, p: int, q: real, c: int)
    requires p >= 1 && (p as real) * q == 1.0 && g == c * p
    ensures q > 0.0 && (x < g as real <==> x * q < c as real) && (x == g as real <==> x * q == c as real)
  {
    RealMul(c, p);
    if q <= 0.0 {
      RealOrder(q, 0.0, p as real);
    }
    RealOrder(x, g as real, q);
    Regroup(c as real, p as real, q);
  }

  /** Rounding to a multiple of p is rounding to an integer in units of p. */
  lemma UnitsRounded(m: int, p: int, x: real, q: real, z: real, neg: bool, mode: Mode)
    requires p >= 1 && (p as real) * q == 1.0 && RoundsTo(m, p, x, neg, mode) && z == x * q
    ensures RoundsTo(m, 1, z, neg, mode)
  {
    var g := m * p;
    Multiples(m, p);
    ScaledOrder(x, g, p, q, m);
    ScaledOrder(x, g - p, p, q, m - 1);
    ScaledOrder(x, g + p, p, q, m + 1);
    ScaledOrder(2.0 * x, 2 * g - p, p, q, 2 * m - 1);
    ScaledOrder(2.0 * x, 2 * g + p, p, q, 2 * m + 1);
    Regroup(2.0, x, q);
  }

  lemma Multiples(m: int, p: int)
    ensures m * p - p == (m - 1) * p && m * p + p == (m + 1) * p
    ensures 2 * (m * p) - p == (2 * m - 1) * p && 2 * (m * p) + p == (2 * m + 1) * p
  {}

  /** The leading bit of the mantissa is that of the real. */
  lemma FloorBinade(x: real, n: nat, exact: bool, e: int, prec: nat)
    requires HasFloor(x, n, exact) && n > 0
    ensures Binade(x * Scale(e), prec, e + BitLength(n) - prec)
  {
    hide Scale, P2;
    var l := BitLength(n);
    PositiveLength(n);
    BitLengthIs(n);
    hide BitLength;
    var low: int, high: int := P2(l - 1), P2(l);
    ScaleAdd(l - 1, e);
    ScaleAdd(l, e);
    BitsScale(l - 1);
    BitsScale(l);
    assert low as real <= x < high as real;
    RealOrder(x, low as real, Scale(e));
    RealOrder(x, high as real, Scale(e));
  }

  /** Rounding the integer part with its sticky bit is rounding the real. */
  lemma StickyCorrect(y: real, x: real, n: nat, exact: bool, e: int, prec: nat, neg: bool, mode: Mode, n': nat, e': int,
                      inexact: bool)
    requires HasFloor(x, n, exact) && n > 0 && prec >= 1 && (exact || BitLength(n) >= prec + 2)
    requires y == x * Scale(e) && Rounded(Sticky(n, exact), e, prec, neg, mode, n', e', inexact)
    ensures RoundedReal(y, prec, neg, mode, n', e', inexact)
  {
    hide Scale, P2, RoundsTo, Multiple, BitLength, Same, RoundUp, Binade, HasFloor, Magnitude, RoundInt, Units;
    var s := Sticky(n, exact);
    LengthSticky(n, exact);
    FloorBinade(x, n, exact, e, prec);
    var k := Excess(s, prec);
    var v := RoundInt(s, prec, neg, mode);
    SameMagnitude(v, e, n', e');
    FlagIs(x, n, exact, e, prec, neg, mode);
    if k > 0 {
      StickyAbove(x, n, exact, e, k, prec, neg, mode);
      assert RoundedAt(y, prec, neg, mode, n', e', inexact, Multiple(s, k, neg, mode), e + k);
    } else {
      var u := e + BitLength(n) - prec;
      NothingLost(x, n, exact, e, prec, neg, mode);
      InUnits(n, e, u);
      IntegerRounds(Mul(n, P2(e - u)), neg, mode);
      assert RoundedAt(y, prec, neg, mode, n', e', inexact, Mul(n, P2(e - u)), u);
    }
  }

  /** Without bits below the precision nothing is rounded. */
  lemma NothingLost(x: real, n: nat, exact: bool, e: int, prec: nat, neg: bool, mode: Mode)
    requires HasFloor(x, n, exact) && n > 0 && Excess(Sticky(n, exact), prec) == 0
             && (exact || BitLength(n) >= prec + 2)
    ensures exact && RoundInt(Sticky(n, exact), prec, neg, mode) == n && x * Scale(e) == Magnitude(n, e)
            && BitLength(n) <= prec
  {
    hide Scale, P2, RoundInt, BitLength;
    LengthSticky(n, exact);
    RoundIntExact(n, prec, neg, mode);
    PowerZero(n);
  }

  /** Something is lost from the mantissa exactly when something is lost from the real. */
  lemma FlagIs(x: real, n: nat, exact: bool, e: int, prec: nat, neg: bool, mode: Mode)
    requires HasFloor(x, n, exact) && n > 0 && (exact || BitLength(n) >= prec + 2)
    ensures
      var s := Sticky(n, exact);
      var v := RoundInt(s, prec, neg, mode);
      v == s <==> Magnitude(v, e) == x * Scale(e)
  {
    hide Scale, P2, RoundInt, BitLength;
    var s := Sticky(n, exact);
    var v := RoundInt(s, prec, neg, mode);
    RealOrder(v as real, x, Scale(e));
    if !exact {
      LengthSticky(n, exact);
      RoundIntExact(s, prec, neg, mode);
      var k := Excess(s, prec);
      HalfPower(k);
      var h: int := P2(k - 1);
      OddRest(s, h);
    }
  }

  lemma OddRest(s: int, p: int)
    requires s % 2 == 1 && p >= 1
    ensures s % (2 * p) != 0
  {
    var q, r := s / (2 * p), s % (2 * p);
    assert s == q * (2 * p) + r;
    assert q * (2 * p) == 2 * (q * p);
  }

  /** With bits below the precision: the rounded multiple. */
  lemma StickyAbove(x: real, n: nat, exact: bool, e: int, k: nat, prec: nat, neg: bool, mode: Mode)
    requires HasFloor(x, n, exact) && n > 0 && k == Excess(Sticky(n, exact), prec) && (k >= 2 || exact)
    ensures RoundsTo(Multiple(Sticky(n, exact), k, neg, mode), 1, Units(x * Scale(e), e + k), neg, mode)
    ensures Magnitude(RoundInt(Sticky(n, exact), prec, neg, mode), e)
            == Magnitude(Multiple(Sticky(n, exact), k, neg, mode), e + k)
  {
    hide Scale, P2, RoundsTo, Multiple, HasFloor, Excess, Sticky, Units;
    var m, q := Multiple(Sticky(n, exact), k, neg, mode), Scale(0 - k);
    StickyRounds(x, n, exact, k, neg, mode);
    UnitScale(k);
    BitsScale(k);
    UnitsShifted(x, e, k);
    UnitsRounded(m, P2(k), x, q, Units(x * Scale(e), e + k), neg, mode);
    Rescaled(m, e + k, e);
    assert e + k - e == k;
  }

  lemma UnitsShifted(x: real, e: int, k: nat)
    ensures Units(x * Scale(e), e + k) == x * Scale(0 - k)
  {
    hide Scale;
    UnitScale(e);
    ScaleAdd(-e, 0 - k);
    assert -(e + k) == -e + (0 - k);
    InOtherUnits(x, Scale(e), Scale(-e), Scale(0 - k), Scale(-(e + k)));
  }

  lemma InOtherUnits(x: real, e: real, e': real, k: real, f: real)
    requires e * e' == 1.0 && f == e' * k
    ensures x * e * f == x * k
  {
    assert x * e * (e' * k) == x * (e * e') * k;
  }

  // The canonical form.

  lemma BottomLimb(s: seq<limb>)
    requires |s| >= 1
    ensures Val(s) % BASE == s[0]
  {
    hide Val;
    assert s == [s[0]] + s[1..];
    ValCons(s[0], s[1..]);
    DivModUnique(Val(s), BASE, Val(s[1..]), s[0]);
  }

  /** Mantissas whose top bit is set have the same length when one is a shifted form of the other. */
  lemma SameTop(s: seq<limb>, t: seq<limb>, d: nat)
    requires |s| >= 1 && s[|s| - 1] >= HALF && |t| >= 1 && t[|t| - 1] >= HALF && Val(s) == Mul(Val(t), P2(d))
    ensures 64 * |s| == 64 * |t| + d
  {
    hide Val, Pow, P2;
    TopLength(s);
    TopLength(t);
    ValBound(s);
    ValBound(t);
    P2Pow(|s|);
    P2Pow(|t|);
    P2Add(64 * |t| - 1, d);
    P2Add(64 * |t|, d);
    MulMono(P2(64 * |t| - 1), Val(t), P2(d));
    MulMono(Val(t) + 1, P2(64 * |t|), P2(d));
    MulDist(Val(t), 1, P2(d));
    if 64 * |s| < 64 * |t| + d {
      P2Monotone(64 * |s|, 64 * |t| - 1 + d);
    } else if 64 * |s| > 64 * |t| + d {
      P2Monotone(64 * |t| + d, 64 * |s| - 1);
    }
  }

  lemma SameMantissa(s: seq<limb>, t: seq<limb>, d: nat)
    requires |s| >= 1 && s[|s| - 1] >= HALF && s[0] != 0 && |t| >= 1 && t[|t| - 1] >= HALF
             && Val(s) == Mul(Val(t), P2(d))
    ensures d == 0 && s == t
  {
    hide Val, P2;
    SameTop(s, t, d);
    if d > 0 {
      P2Add(d - 64, 64);
      P2Limb();
      MulAssoc(Val(t), P2(d - 64), BASE);
      BottomLimb(s);
      DivModUnique(Val(s), BASE, Mul(Val(t), P2(d - 64)), 0);
    } else {
      PowerZero(0);
      MulUnit(Val(t));
      ValInjective(s, t);
    }
  }

  /** A number has one canonical form. */
  lemma CanonicalUnique(a: Bf, b: Bf)
    requires a.Normal() && b.Normal() && Same(Val(a.tab), a.Unit(), Val(b.tab), b.Unit())
    ensures a.tab == b.tab && a.expn == b.expn
  {
    hide Val, P2;
    if a.Unit() <= b.Unit() {
      SameMantissa(a.tab, b.tab, b.Unit() - a.Unit());
    } else {
      SameMantissa(b.tab, a.tab, a.Unit() - b.Unit());
    }
  }

  /** The real, the precision and the mode determine every field of a canonical result. */
  lemma ResultUnique(y: real, prec: nat, neg: bool, mode: Mode, a: Bf, inexact: bool, b: Bf, inexact': bool)
    requires !mode.Faithful? && a.Normal() && b.Normal()
    requires RoundedReal(y, prec, neg, mode, Val(a.tab), a.Unit(), inexact)
    requires RoundedReal(y, prec, neg, mode, Val(b.tab), b.Unit(), inexact')
    ensures a.tab == b.tab && a.expn == b.expn && inexact == inexact'
  {
    hide Val, RoundedReal, Same;
    RoundedUnique(y, prec, neg, mode, Val(a.tab), a.Unit(), inexact, Val(b.tab), b.Unit(), inexact');
    CanonicalUnique(a, b);
  }
}
