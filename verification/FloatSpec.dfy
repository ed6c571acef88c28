/** Rounding to a number of significant bits (section 4.3 of IEEE 754), for exact integers and for real
    numbers known only up to a sticky bit. */
module FloatSpec {
  import opened Limbs
  import opened BitFields
  import opened NttSize
  import opened NttLoad

  /** BF_RNDN and the other rounding modes. */
  datatype Mode = NearestEven | TowardZero | Down | Up | NearestAway | Away | Faithful

  /** The digit of weight 2^k. */
  function Bit(n: nat, k: nat): int {
    QuotientNatural(n, P2(k));
    (n / P2(k)) % 2
  }

  /** Does a magnitude with the given first bit below the precision, rest below that bit, and last digit round
      up? */
  function RoundsUp(bit1: bool, bit0: bool, odd: bool, neg: bool, mode: Mode): bool {
    match mode
    case TowardZero => false
    case NearestEven => bit1 && (bit0 || odd)
    case Down => neg && (bit1 || bit0)
    case Up => !neg && (bit1 || bit0)
    case Away => bit1 || bit0
    case NearestAway => bit1
    case Faithful => bit1
  }

  /** Does rounding at the bit k take the magnitude n up to the next multiple of 2^k? */
  function RoundUp(n: nat, k: nat, neg: bool, mode: Mode): bool {
    k > 0 && RoundsUp(Bit(n, k - 1) == 1, n % P2(k - 1) != 0, Bit(n, k) == 1, neg, mode)
  }

  /** The number of low bits that do not fit the precision. */
  function Excess(n: nat, prec: nat): nat {
    if BitLength(n) > prec then BitLength(n) - prec else 0
  }

  /** n rounded, as a multiple of 2^k. */
  function Multiple(n: nat, k: nat, neg: bool, mode: Mode): nat {
    QuotientNatural(n, P2(k));
    n / P2(k) + if RoundUp(n, k, neg, mode) then 1 else 0
  }

  /** The magnitude n rounded to prec significant bits. */
  function RoundInt(n: nat, prec: nat, neg: bool, mode: Mode): nat {
    var k := Excess(n, prec);
    MulMono(0, Multiple(n, k, neg, mode), P2(k));
    Multiple(n, k, neg, mode) * P2(k)
  }

  // What rounding means.

  /** g is the correct rounding of the magnitude x to a multiple of u; even tells whether it is an even multiple. */
  ghost predicate RoundsAt(g: int, even: bool, u: int, x: real, neg: bool, mode: Mode) {
    var below, above := (g - u) as real, (g + u) as real;
    match mode
    case TowardZero => g as real <= x < above
    case Away => below < x <= g as real
    case Down => if neg then below < x <= g as real else g as real <= x < above
    case Up => if neg then g as real <= x < above else below < x <= g as real
    case NearestEven =>
      var low, high := (2 * g - u) as real, (2 * g + u) as real;
      low <= 2.0 * x <= high && (2.0 * x == low || 2.0 * x == high ==> even)
    case NearestAway => (2 * g - u) as real <= 2.0 * x < (2 * g + u) as real
    case Faithful => below < x < above
  }

  /** r units is the correct rounding of the magnitude x to a multiple of the unit. */
  ghost predicate RoundsTo(r: int, unit: int, x: real, neg: bool, mode: Mode) {
    RoundsAt(r * unit, r % 2 == 0, unit, x, neg, mode)
  }

  /** x has integer part n, and no fraction exactly when the flag is set. */
  ghost predicate HasFloor(x: real, n: nat, exact: bool) {
    n as real <= x < (n + 1) as real && (exact <==> x == n as real)
  }

  /** The integer part with a sticky lowest bit. */
  function Sticky(n: nat, exact: bool): nat {
    if exact || n % 2 == 1 then n else n + 1
  }

  /** The parts of n around the bit k. */
  lemma Split(n: nat, k: nat) returns (f: nat, h: nat, t: nat)
    requires k > 0
    ensures f == n / P2(k) && Bit(n, k - 1) == h && t == n % P2(k - 1) && h <= 1 && t < P2(k - 1)
            && P2(k) == 2 * P2(k - 1)
    ensures n == Mul(f, P2(k)) + Mul(h, P2(k - 1)) + t && Bit(n, k) == f % 2
  {
    var p := P2(k - 1);
    QuotientNatural(n, p);
    RemainderBound(n, p);
    var q := n / p;
    t := n % p;
    h, f := q % 2, q / 2;
    SplitNumbers(n, p, q, t, h, f);
    DivModUnique(n, P2(k), f, h * p + t);
  }

  lemma SplitNumbers(n: nat, p: nat, q: nat, t: nat, h: nat, f: nat)
    requires p >= 1 && q == n / p && t == n % p && h == q % 2 && f == q / 2
    ensures n == f * (2 * p) + (h * p + t) && 0 <= h * p + t < 2 * p
  {
    assert n == q * p + t;
    MulDist(2 * f, h, p);
    assert 2 * f * p == f * (2 * p);
    MulMono(0, h, p);
    MulMono(h, 1, p);
  }

  /** Rounding what a sticky bit stands for rounds the number itself, when two bits lie below the precision. */
  lemma StickyRounds(x: real, n: nat, exact: bool, k: nat, neg: bool, mode: Mode)
    requires HasFloor(x, n, exact) && (k >= 2 || exact)
    ensures RoundsTo(Multiple(Sticky(n, exact), k, neg, mode), P2(k), x, neg, mode)
  {
    hide P2, Bit, RoundsTo, Multiple;
    var s := Sticky(n, exact);
    if k == 0 {
      UnitRounds(s, neg, mode);
    } else {
      if !exact {
        var f, h, t := Split(s, k);
        HalfPower(k - 1);
        StickyTail(n, s, f, h, P2(k - 1), t, P2(k - 2));
      }
      CellRounds(x, s, exact, k, neg, mode);
    }
  }

  lemma HalfPower(k: nat)
    requires k > 0
    ensures P2(k) == 2 * P2(k - 1)
  {}

  lemma UnitRounds(s: nat, neg: bool, mode: Mode)
    ensures RoundsTo(Multiple(s, 0, neg, mode), P2(0), s as real, neg, mode)
  {
    assert P2(0) == 1;
    DivModUnique(s, 1, s, 0);
    assert Multiple(s, 0, neg, mode) == s;
  }

  lemma CellRounds(x: real, s: nat, exact: bool, k: nat, neg: bool, mode: Mode)
    requires k > 0
    requires if exact then x == s as real else s % P2(k - 1) > 0 && (s - 1) as real < x < (s + 1) as real
    ensures RoundsTo(Multiple(s, k, neg, mode), P2(k), x, neg, mode)
  {
    hide P2, Bit, RoundsAt;
    var f, h, t := Split(s, k);
    var p := P2(k - 1);
    var up := RoundUp(s, k, neg, mode);
    RoundsNumbers(x, s, Mul(f, 2 * p), f % 2 == 0, h, p, t, exact, up, neg, mode);
    CellEnds(f, 2 * p);
  }

  lemma CellEnds(f: nat, u: nat)
    ensures (f + 1) * u == Mul(f, u) + u && f * u == Mul(f, u) && (f + 1) % 2 == 1 - f % 2
  {
    MulDist(f, 1, u);
  }

  /** A sticky number is odd, so its tail is not zero, and n lies in the same half cell. */
  lemma StickyTail(n: nat, s: nat, f: nat, h: nat, p: nat, t: nat, q: nat)
    requires p == 2 * q && s == Mul(f, 2 * p) + Mul(h, p) + t && t < p && s == Sticky(n, false)
    ensures t > 0 && (n == s || n + 1 == s) && s % 2 == 1
  {
    assert f * (2 * p) == 2 * (f * p) && h * (2 * q) == 2 * (h * q);
  }

  lemma RoundsNumbers(x: real, s: int, g: int, even: bool, h: int, p: int, t: int, exact: bool, up: bool, neg: bool,
                      mode: Mode)
    requires s == g + Mul(h, p) + t && 0 <= h <= 1 && 0 <= t < p
    requires if exact then x == s as real else t > 0 && (s - 1) as real < x < (s + 1) as real
    requires up == RoundsUp(h == 1, t != 0, !even, neg, mode)
    ensures RoundsAt(if up then g + 2 * p else g, even != up, 2 * p, x, neg, mode)
  {
    if h == 0 {
      assert Mul(h, p) == 0;
    } else {
      assert Mul(h, p) == p;
    }
  }

  /** RoundInt is the correct rounding of the integer. */
  lemma RoundIntOk(n: nat, prec: nat, neg: bool, mode: Mode)
    ensures RoundInt(n, prec, neg, mode) == Mul(Multiple(n, Excess(n, prec), neg, mode), P2(Excess(n, prec)))
    ensures RoundsTo(Multiple(n, Excess(n, prec), neg, mode), P2(Excess(n, prec)), n as real, neg, mode)
  {
    hide P2, Multiple, RoundsTo;
    StickyRounds(n as real, n, true, Excess(n, prec), neg, mode);
  }

  // Dropping low bits.

  lemma LengthOf(n: nat, len: nat)
    requires n < P2(len) && (len > 0 ==> P2(len - 1) <= n)
    ensures BitLength(n) == len
  {
    BitLengthIs(n);
    if BitLength(n) > len {
      P2Monotone(len, BitLength(n) - 1);
    } else if BitLength(n) < len {
      P2Monotone(BitLength(n), len - 1);
    }
  }

  lemma LengthWithin(m: nat, t: nat)
    requires m < P2(t)
    ensures BitLength(m) <= t
  {
    hide P2, BitLength;
    BitLengthIs(m);
    PositiveLength(m);
    var l := BitLength(m);
    if l > t {
      P2Monotone(t, l - 1);
    }
  }

  /** The length of a number with low bits dropped. */
  lemma LengthDropped(n: nat, j: nat, q: nat, r: nat)
    requires n == Mul(q, P2(j)) + r && r < P2(j) && q > 0
    ensures BitLength(n) == BitLength(q) + j
  {
    BitLengthIs(q);
    var l := BitLength(q);
    P2Add(l, j);
    P2Add(l - 1, j);
    hide P2, BitLength;
    MulMono(q + 1, P2(l), P2(j));
    MulDist(q, 1, P2(j));
    MulMono(P2(l - 1), q, P2(j));
    LengthOf(n, l + j);
  }

  lemma LengthSticky(q: nat, exact: bool)
    requires q > 0
    ensures BitLength(Sticky(q, exact)) == BitLength(q)
  {}

  lemma PositiveLength(q: nat)
    ensures BitLength(q) > 0 <==> q > 0
  {}

  lemma SameMultiple(n: nat, j: nat, e: nat, neg: bool, mode: Mode)
    requires n / P2(j) >= 0 && e >= 1 && n % P2(j) == 0
    ensures Multiple(n, e + j, neg, mode) == Multiple(n / P2(j), e, neg, mode)
  {
    BitDropped(n, j, e);
    BitDropped(n, j, e - 1);
    TailDropped(n, j, e - 1);
    QuotientDropped(n, j, e);
    hide P2, RoundsUp, Bit;
    assert e + j - 1 == e - 1 + j;
  }

  /** Rounding commutes with scaling by powers of two. */
  lemma RoundIntScale(n: nat, j: nat, prec: nat, neg: bool, mode: Mode)
    ensures Mul(n, P2(j)) >= 0 && RoundInt(Mul(n, P2(j)), prec, neg, mode) == Mul(RoundInt(n, prec, neg, mode), P2(j))
  {
    hide P2, BitLength, Multiple;
    MulMono(0, n, P2(j));
    var m := Mul(n, P2(j));
    DivModUnique(m, P2(j), n, 0);
    if n == 0 {
      RoundIntExact(0, prec, neg, mode);
    } else {
      LengthDropped(m, j, n, 0);
      var e := Excess(n, prec);
      if e >= 1 {
        SameMultiple(m, j, e, neg, mode);
        P2Add(e, j);
        MulAssoc(Multiple(n, e, neg, mode), P2(e), P2(j));
      } else {
        var e' := Excess(m, prec);
        P2Add(j - e', e');
        MulAssoc(n, P2(j - e'), P2(e'));
        DivModUnique(m, P2(e'), Mul(n, P2(j - e')), 0);
        RoundIntExact(m, prec, neg, mode);
        assert P2(0) == 1 && n % P2(0) == 0 by { PowerZero(n); }
        RoundIntExact(n, prec, neg, mode);
      }
    }
  }

  lemma PowerZero(n: nat)
    ensures P2(0) == 1 && n % P2(0) == 0
  {
    assert P2(0) == 1;
    DivModUnique(n, 1, n, 0);
  }

  /** Rounding changes exactly the numbers that do not fit. */
  lemma RoundIntExact(n: nat, prec: nat, neg: bool, mode: Mode)
    ensures RoundInt(n, prec, neg, mode) == n <==> n % P2(Excess(n, prec)) == 0
  {
    var k := Excess(n, prec);
    if k == 0 {
      PowerZero(n);
      DivModUnique(n, 1, n, 0);
    } else {
      var f, h, t := Split(n, k);
      hide P2, Bit, RoundsUp;
      var p, up := P2(k - 1), RoundUp(n, k, neg, mode);
      assert h * p == if h == 0 then 0 else p;
      DivModUnique(n, P2(k), f, h * p + t);
      MulDist(f, 1, P2(k));
      if h == 0 && t == 0 {
        ExactStays(n % P2(k - 1) != 0, Bit(n, k) == 1, neg, mode);
      }
    }
  }

  lemma ExactStays(bit0: bool, odd: bool, neg: bool, mode: Mode)
    requires !bit0
    ensures !RoundsUp(false, bit0, odd, neg, mode)
  {}

  lemma QuotientDropped(n: nat, j: nat, e: nat)
    requires n / P2(j) >= 0
    ensures n / P2(e + j) == (n / P2(j)) / P2(e)
  {
    hide P2;
    P2Add(j, e);
    DivDiv(n, P2(j), P2(e));
  }

  lemma BitDropped(n: nat, j: nat, e: nat)
    ensures n / P2(j) >= 0 && Bit(n, e + j) == Bit(n / P2(j), e)
  {
    hide P2;
    QuotientNatural(n, P2(j));
    P2Add(j, e);
    DivDiv(n, P2(j), P2(e));
  }

  lemma TailDropped(n: nat, j: nat, e: nat)
    requires n / P2(j) >= 0
    ensures n % P2(e + j) == 0 <==> n % P2(j) == 0 && (n / P2(j)) % P2(e) == 0
  {
    hide P2;
    P2Add(j, e);
    ModSplit(n, P2(j), P2(e));
    RemainderBound(n, P2(j));
    RemainderBound(n / P2(j), P2(e));
    ZeroSum(n % P2(j), P2(j), (n / P2(j)) % P2(e));
  }

  lemma ZeroSum(r: nat, p: nat, t: nat)
    requires p >= 1
    ensures r + p * t == 0 <==> r == 0 && t == 0
  {
    MulMono(0, t, p);
    if t > 0 {
      MulMono(1, t, p);
    }
  }

  lemma StickyQuotient(q: nat, s: nat, p: nat, f: nat, r: nat)
    requires p >= 1 && q == Mul(f, 2 * p) + r && r < 2 * p && (s == q || (s == q + 1 && q % 2 == 0))
    ensures s / (2 * p) == f
  {
    assert f * (2 * p) == 2 * (f * p);
    DivModUnique(s, 2 * p, f, s - f * (2 * p));
  }

  lemma LengthAtLeast(v: nat, l: nat)
    requires l >= 1 && v >= P2(l - 1)
    ensures BitLength(v) >= l
  {
    BitLengthIs(v);
    if BitLength(v) < l {
      P2Monotone(BitLength(v), l - 1);
    }
  }
}
