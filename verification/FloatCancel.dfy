/** How many leading bits a subtraction cancels (libbf.c count_cancelled_bits). */
module FloatCancel {
  import opened Limbs
  import opened Bits
  import opened BitFields
  import opened NttLoad
  import opened NttSize
  import opened NttStore
  import opened FloatSpec
  import opened FloatRound
  import opened FloatAlign

  /** The leading parts of the two numbers, above the bit k, differ by one. */
  ghost predicate OneApart(x: nat, y: nat, k: nat) {
    x / P2(k) == y / P2(k) + 1
  }

  /** A field of bits of a number: from the bit s of limb j up to the bit t. */
  lemma MiddleBits(w: nat, j: nat, s: nat, t: nat)
    requires s <= t <= 64
    ensures LimbOf(w, j) % P2(t) >= 0
    ensures w / P2(64 * j + s) == Mul(w / P2(64 * j + t), P2(t - s)) + (LimbOf(w, j) % P2(t)) / P2(s)
  {
    hide P2, Pow;
    LimbRange(w, j);
    var u, v := w / P2(64 * j), LimbOf(w, j);
    QuotientNatural(w, P2(64 * j));
    LimbIs(w, j);
    ModMod(u, t);
    P2Add(64 * j, s);
    P2Add(64 * j, t);
    DivDiv(w, P2(64 * j), P2(s));
    DivDiv(w, P2(64 * j), P2(t));
    P2Add(s, t - s);
    FieldSplit(u, P2(s), P2(t - s), P2(t));
  }

  lemma LimbIs(w: nat, j: nat)
    ensures LimbOf(w, j) == (w / P2(64 * j)) % BASE
  {
    P2Pow(j);
  }

  lemma FieldSplit(u: nat, p: nat, q: nat, t: nat)
    requires p >= 1 && q >= 1 && t == p * q
    ensures u / p == Mul(u / t, q) + (u % t) / p
  {
    var f, r := u / t, u % t;
    assert u == f * t + r;
    var g, e := r / p, r % p;
    assert r == g * p + e;
    assert u == (f * q + g) * p + e by {
      MulDist(f * q, g, p);
      assert f * q * p == f * (p * q);
    }
    DivModUnique(u, p, f * q + g, e);
  }

  /** Where the leading parts are one apart, the lower bits decide: zeros in the first and ones in the second
      keep the distance, anything else widens it. */
  lemma FieldDistance(x: nat, y: nat, j: nat, s: nat, t: nat)
    requires s <= t <= 64 && OneApart(x, y, 64 * j + t)
    ensures 0 <= LimbOf(x, j) % P2(t) < P2(t) && 0 <= LimbOf(y, j) % P2(t) < P2(t)
    ensures x / P2(64 * j + s) - y / P2(64 * j + s)
         == 1 + (LimbOf(x, j) % P2(t)) / P2(s) + (P2(t) - 1 - LimbOf(y, j) % P2(t)) / P2(s)
  {
    hide P2, LimbOf;
    LimbRange(x, j);
    LimbRange(y, j);
    RemainderBound(LimbOf(x, j), P2(t));
    RemainderBound(LimbOf(y, j), P2(t));
    MiddleBits(x, j, s, t);
    MiddleBits(y, j, s, t);
    P2Add(s, t - s);
    MulDist(y / P2(64 * j + t), 1, P2(t - s));
    Complement(LimbOf(y, j) % P2(t), P2(s), P2(t - s));
  }

  lemma Complement(m: nat, p: nat, q: nat)
    requires p >= 1 && m < p * q
    ensures (p * q - 1 - m) / p == q - 1 - m / p
  {
    var f, r := m / p, m % p;
    assert m == f * p + r;
    if f >= q {
      MulMono(q, f, p);
    }
    assert p * q - 1 - m == (q - 1 - f) * p + (p - 1 - r) by {
      MulDist(q, 1 + f, p);
      MulDist(1, f, p);
      MulSwap(p, q);
    }
    DivModUnique(p * q - 1 - m, p, q - 1 - f, p - 1 - r);
  }

  /** Two apart above the bit k: the difference exceeds 2^k. */
  lemma TwoApart(x: nat, y: nat, k: nat)
    requires x / P2(k) >= y / P2(k) + 2
    ensures x - y > P2(k)
  {
    hide P2;
    DivModFacts(x, P2(k));
    DivModFacts(y, P2(k));
    MulMono(y / P2(k) + 2, x / P2(k), P2(k));
    MulDist(y / P2(k), 2, P2(k));
  }

  lemma OneApartOrder(x: nat, y: nat, k: nat)
    requires OneApart(x, y, k)
    ensures x > y
  {
    hide P2;
    DivModFacts(x, P2(k));
    DivModFacts(y, P2(k));
    MulDist(y / P2(k), 1, P2(k));
  }

  // Limbs.

  /** The first bit in which two limbs differ. */
  lemma FirstDifference(v1: limb, v2: limb) returns (t: nat)
    requires v1 > v2
    ensures t == 63 - Clz(BitXor(v1, v2) % BASE) && t < 64 && BitXor(v1, v2) < BASE
    ensures v1 / P2(t) == v2 / P2(t) + 1
  {
    var x := BitXor(v1, v2);
    XorZero(v1, v2);
    XorShift(v1, v2, 64);
    P2Limb();
    DivModUnique(v1, BASE, 0, v1);
    DivModUnique(v2, BASE, 0, v2);
    assert x < BASE by { QuotientZero(x, BASE); }
    DivModUnique(x, BASE, 0, x);
    BitLengthIs(x);
    LimbLength(x);
    t := BitLength(x) - 1;
    hide BitXor, BitLength;
    HalfPower(t + 1);
    XorShift(v1, v2, t + 1);
    XorShift(v1, v2, t);
    DivModUnique(x, P2(t + 1), 0, x);
    DivModUnique(x, P2(t), 1, x - P2(t));
    XorZero(v1 / P2(t + 1), v2 / P2(t + 1));
    XorZero(v1 / P2(t), v2 / P2(t));
    hide P2;
    DifferByOne(v1, v2, P2(t));
  }

  lemma QuotientZero(x: nat, d: nat)
    requires d >= 1 && x / d == 0
    ensures x < d
  {}

  lemma DifferByOne(v1: nat, v2: nat, p: nat)
    requires p >= 1 && v1 > v2 && v1 / (2 * p) == v2 / (2 * p) && v1 / p != v2 / p
    ensures v1 / p == v2 / p + 1
  {
    HalfOf(v1, p);
    HalfOf(v2, p);
    if v1 / p < v2 / p {
      MulMono(v1 / p + 1, v2 / p, p);
      assert v1 == (v1 / p) * p + v1 % p;
      assert v2 == (v2 / p) * p + v2 % p;
      MulDist(v1 / p, 1, p);
    }
  }

  lemma HalfOf(v: nat, p: nat)
    requires p >= 1
    ensures (v / p) / 2 == v / (2 * p)
  {
    DivDiv(v, p, 2);
    MulSwap(p, 2);
  }

  /** The width of the field that is left after the leading zeros of both. */
  function LeadingZeros(v1: limb, v2: limb): nat {
    if Clz(v1) < Clz(v2) then Clz(v1) else Clz(v2)
  }

  lemma FieldWidth(m1: limb, m2: limb, t: nat)
    requires t <= 64 && m1 < P2(t) && m2 < P2(t)
    ensures
      var s := 64 - LeadingZeros(m1, m2);
      0 <= s <= t && m1 / P2(s) == 0 && m2 / P2(s) == 0
      && (s > 0 ==> m1 / P2(s - 1) + m2 / P2(s - 1) >= 1)
  {
    BitLengthIs(m1);
    BitLengthIs(m2);
    LengthWithin(m1, t);
    LengthWithin(m2, t);
    LimbLength(m1);
    LimbLength(m2);
    var s := 64 - LeadingZeros(m1, m2);
    P2Monotone(BitLength(m1), s);
    P2Monotone(BitLength(m2), s);
    DivModUnique(m1, P2(s), 0, m1);
    DivModUnique(m2, P2(s), 0, m2);
    if s > 0 {
      HalfPower(s);
      QuotientNatural(m1, P2(s - 1));
      QuotientNatural(m2, P2(s - 1));
      if BitLength(m1) == s {
        DivModUnique(m1, P2(s - 1), 1, m1 - P2(s - 1));
      } else {
        DivModUnique(m2, P2(s - 1), 1, m2 - P2(s - 1));
      }
    }
  }

  // The scan.

  /** The two limbs at the scan position. */
  method LimbPair(a: seq<limb>, b: seq<limb>, bitOffset: int, bOffset: int, ghost d: nat, ghost tot: nat, ghost j: int)
    returns (v1: limb, v2: limb)
    requires Aligned(|a|, |b|, d, tot) && -1 <= j && bitOffset == 64 * (|a| - tot + j) + 63
    requires bOffset == 64 * (|b| - |a|) - 63 + d
    ensures j >= 0 ==> v1 == LimbOf(First(a, tot), j) && v2 == LimbOf(Second(b, d, tot), j)
    ensures j == -1 ==> v1 == 0 && v2 == 0
  {
    hide LimbOf, TwoLimbs, First, Second;
    v1 := LimbZ(a, bitOffset / 64);
    v2 := GetBitsZ(b, bitOffset + bOffset);
    assert bitOffset / 64 == |a| - tot + j && bitOffset + bOffset == 64 * (|b| - tot + j) + d;
    if j >= 0 {
      FirstLimb(a, tot, j);
      SecondLimb(b, d, tot, j);
    } else {
      BelowBoth(b, d, tot);
    }
  }

  lemma BelowBoth(b: seq<limb>, d: nat, tot: nat)
    requires 64 * |b| + d <= 64 * tot
    ensures var pos := 64 * (|b| - tot - 1) + d; TwoLimbs(LimbZ(b, pos / 64), LimbZ(b, pos / 64 + 1), pos % 64) == 0
  {
    var pos := 64 * (|b| - tot - 1) + d;
    NttStore.ZeroLimbs(pos % 64);
    if pos / 64 + 1 >= 0 {
      assert pos % 64 == 0;
    }
  }

  /** The leading limbs of both numbers are equal. */
  ghost predicate SameAbove(x: nat, y: nat, k: nat) {
    x / P2(k) == y / P2(k)
  }

  lemma SameStep(x: nat, y: nat, j: nat)
    requires SameAbove(x, y, 64 * (j + 1)) && LimbOf(x, j) == LimbOf(y, j)
    ensures SameAbove(x, y, 64 * j)
  {
    hide P2, LimbOf;
    MiddleBits(x, j, 0, 64);
    MiddleBits(y, j, 0, 64);
  }

  /** Where the limbs differ for the first time, the larger number has the larger limb. */
  lemma LargerLimb(x: nat, y: nat, j: nat)
    requires SameAbove(x, y, 64 * (j + 1)) && LimbOf(x, j) != LimbOf(y, j) && x > y
    ensures LimbOf(x, j) > LimbOf(y, j)
  {
    hide P2, LimbOf;
    LimbRange(x, j);
    LimbRange(y, j);
    WholeLimb(x, j);
    WholeLimb(y, j);
    var p := P2(64 * j);
    DivModFacts(x, p);
    DivModFacts(y, p);
    if LimbOf(x, j) < LimbOf(y, j) {
      MulMono(x / p + 1, y / p, p);
      MulDist(x / p, 1, p);
    }
  }

  lemma WholeLimb(w: nat, j: nat)
    ensures w / P2(64 * j) == (w / P2(64 * (j + 1))) * BASE + LimbOf(w, j)
  {
    P2Limb();
    P2Pow(j);
    P2Add(64 * j, 64);
    hide P2;
    DivDiv(w, P2(64 * j), BASE);
    QuotientNatural(w, P2(64 * j));
    DivModFacts(w / P2(64 * j), BASE);
  }

  lemma FirstBit(x: nat, y: nat, j: nat, t: nat)
    requires SameAbove(x, y, 64 * (j + 1)) && t <= 64 && 0 <= LimbOf(x, j) && 0 <= LimbOf(y, j)
    requires LimbOf(x, j) / P2(t) == LimbOf(y, j) / P2(t) + 1
    ensures OneApart(x, y, 64 * j + t)
  {
    hide P2, LimbOf;
    MiddleBits(x, j, t, 64);
    MiddleBits(y, j, t, 64);
    LimbRange(x, j);
    LimbRange(y, j);
    P2Limb();
    DivModUnique(LimbOf(x, j), BASE, 0, LimbOf(x, j));
    DivModUnique(LimbOf(y, j), BASE, 0, LimbOf(y, j));
  }

  /** One field scanned: what is known above its width s, and what ends the scan. */
  lemma Scanned(x: nat, y: nat, j: nat, t: nat, m1: limb, m2: limb)
    requires t <= 64 && OneApart(x, y, 64 * j + t)
    requires m1 == LimbOf(x, j) % P2(t) && m2 == P2(t) - 1 - LimbOf(y, j) % P2(t)
    ensures
      var s := 64 - LeadingZeros(m1, m2);
      0 <= s <= t && OneApart(x, y, 64 * j + s) && (s > 0 ==> BitLength(x - y) >= 64 * j + s)
  {
    hide P2, LimbOf, LeadingZeros, BitLength;
    RemainderBound(LimbOf(x, j), P2(t)) by { LimbRange(x, j); }
    LimbRange(y, j);
    RemainderBound(LimbOf(y, j), P2(t));
    FieldWidth(m1, m2, t);
    var s := 64 - LeadingZeros(m1, m2);
    FieldDistance(x, y, j, s, t);
    OneApartOrder(x, y, 64 * j + s);
    if s > 0 {
      FieldDistance(x, y, j, s - 1, t);
      TwoApart(x, y, 64 * j + s - 1);
      LengthAtLeast(x - y, 64 * j + s);
    }
  }

  lemma BothBelow(a: seq<limb>, b: seq<limb>, d: nat, tot: nat)
    requires Aligned(|a|, |b|, d, tot)
    ensures First(a, tot) < Pow(tot) && Second(b, d, tot) < Pow(tot)
            && SameAbove(First(a, tot), Second(b, d, tot), 64 * tot)
  {
    hide Val, Pow, P2, Second;
    ValBound(Padded(a, tot - |a|));
    SecondRange(b, d, tot);
    P2Pow(tot);
    DivModUnique(First(a, tot), Pow(tot), 0, First(a, tot));
    DivModUnique(Second(b, d, tot), Pow(tot), 0, Second(b, d, tot));
  }

  lemma SameNumber(x: nat, y: nat)
    requires SameAbove(x, y, 0)
    ensures x == y
  {
    P2Nothing(x);
    P2Nothing(y);
  }

  /** The masks of the code. */
  lemma Masks(v1: limb, v2: limb, t: nat)
    requires t <= 64
    ensures BitAnd(v1, P2(t) - 1) == v1 % P2(t) < BASE
    ensures BitAnd(BASE - 1 - v2, P2(t) - 1) == P2(t) - 1 - v2 % P2(t) < BASE
  {
    AndMask(v1, t);
    AndMask(BASE - 1 - v2, t);
    RemainderSmall(v1, P2(t));
    RemainderSmall(BASE - 1 - v2, P2(t));
    P2Split(t);
    hide P2;
    ComplementRest(v2, P2(t), P2(64 - t));
  }

  lemma ComplementRest(v: nat, p: nat, q: nat)
    requires p >= 1 && p * q == BASE && v < BASE
    ensures (BASE - 1 - v) % p == p - 1 - v % p
  {
    Complement(v, p, q);
    var f := BASE - 1 - v;
    assert f == (f / p) * p + f % p;
    assert v == (v / p) * p + v % p;
    assert f == (q - 1 - v / p) * p + (p - 1 - v % p) by {
      MulDist(q, 1 + v / p, p);
      MulDist(1, v / p, p);
      MulSwap(p, q);
    }
    DivModUnique(f, p, q - 1 - v / p, p - 1 - v % p);
  }

  /** Whole limbs as fields. */
  lemma WholeField(v1: limb, v2: limb)
    ensures v1 == v1 % P2(64) && BASE - 1 - v2 == P2(64) - 1 - v2 % P2(64)
    ensures (v1 == 0 && v2 == BASE - 1) <==> LeadingZeros(v1, BASE - 1 - v2) == 64
    ensures LeadingZeros(v1, BASE - 1 - v2) <= 64
  {
    P2Limb();
    DivModUnique(v1, BASE, 0, v1);
    DivModUnique(v2, BASE, 0, v2);
    hide P2;
    PositiveLength(v1);
    PositiveLength(BASE - 1 - v2);
    LimbLength(v1);
    LimbLength(BASE - 1 - v2);
  }

  /** The first search: equal limbs. */
  method FindDifference(a: seq<limb>, b: seq<limb>, bOffset: int, d: nat, ghost tot: nat)
    returns (v1: limb, v2: limb, bitOffset: int, n: nat, ghost j: nat)
    requires d <= 1 && Aligned(|a|, |b|, d, tot) && |a| >= 1 && First(a, tot) > Second(b, d, tot)
    requires bOffset == 64 * (|b| - |a|) - 63 + d
    ensures j < tot && bitOffset == 64 * (|a| - tot + j) + 63 && n == 64 * (tot - 1 - j) && v1 > v2
    ensures v1 == LimbOf(First(a, tot), j) && v2 == LimbOf(Second(b, d, tot), j)
    ensures SameAbove(First(a, tot), Second(b, d, tot), 64 * (j + 1))
  {
    hide LimbOf, First, Second, P2, Pow, SameAbove;
    ghost var x, y := First(a, tot), Second(b, d, tot);
    BothBelow(a, b, d, tot);
    bitOffset, n := |a| * 64 - 1, 0;
    ghost var i: int := tot - 1;
    v1, v2 := LimbPair(a, b, bitOffset, bOffset, d, tot, i);
    while v1 == v2
      invariant -1 <= i < tot && bitOffset == 64 * (|a| - tot + i) + 63 && n == 64 * (tot - 1 - i)
      invariant i >= 0 ==> v1 == LimbOf(x, i) && v2 == LimbOf(y, i)
      invariant i == -1 ==> v1 == v2
      invariant SameAbove(x, y, 64 * (i + 1))
      decreases i + 1
    {
      NotBelow(x, y, i);
      SameStep(x, y, i);
      n := n + 64;
      bitOffset := bitOffset - 64;
      i := i - 1;
      v1, v2 := LimbPair(a, b, bitOffset, bOffset, d, tot, i);
    }
    j := i;
    LargerLimb(x, y, j);
  }

  /** count_cancelled_bits: at most this many bits are lost at the top of the difference. */
  method CountCancelledBits(a: seq<limb>, b: seq<limb>, d: nat, ghost tot: nat) returns (n: nat)
    requires d <= 1 && Aligned(|a|, |b|, d, tot) && |a| >= 1
    requires First(a, tot) > Second(b, d, tot)
    ensures BitLength(First(a, tot) - Second(b, d, tot)) + n >= 64 * tot
  {
    hide LimbOf, First, Second, P2, Pow, BitLength, LeadingZeros, BitXor, BitAnd, Clz, SameAbove, OneApart;
    ghost var x, y := First(a, tot), Second(b, d, tot);
    var bOffset := (|b| - |a|) * 64 - (64 - 1) + d;
    var v1, v2, bitOffset;
    ghost var j;
    v1, v2, bitOffset, n, j := FindDifference(a, b, bOffset, d, tot);
    // the leading bit of the exclusive or
    ghost var t := FirstDifference(v1, v2);
    FirstBit(x, y, j, t);
    var p := Clz(BitXor(v1, v2)) + 1;
    n := n + p;
    p := 64 - p;
    // a run of zeros against ones keeps the difference small
    if p > 0 {
      var p1 := MatchRest(v1, v2, p, x, y, j);
      n := n + p1;
      if p1 != p {
        return;
      }
    }
    bitOffset := bitOffset - 64;
    ghost var next: int := j;
    n := CountTail(a, b, bitOffset, bOffset, n, d, tot, next - 1);
  }

  /** The search in the p bits after the first different one. */
  method MatchRest(v1: limb, v2: limb, p: nat, ghost x: nat, ghost y: nat, ghost j: nat) returns (p1: nat)
    requires 0 < p <= 64 && OneApart(x, y, 64 * j + p) && v1 == LimbOf(x, j) && v2 == LimbOf(y, j)
    ensures p1 <= p && OneApart(x, y, 64 * j + p - p1) && x > y && (p1 != p ==> BitLength(x - y) >= 64 * j + p - p1)
  {
    hide LimbOf, P2, BitLength, LeadingZeros, BitAnd, OneApart;
    OneApartOrder(x, y, 64 * j + p);
    Masks(v1, v2, p);
    var m1, m2 := BitAnd(v1, P2(p) - 1), BitAnd(BASE - 1 - v2, P2(p) - 1);
    Scanned(x, y, j, p, m1, m2);
    p1 := LeadingZeros(m1, m2) - (64 - p);
  }

  /** Before the limbs differ the scan is inside the numbers. */
  lemma NotBelow(x: nat, y: nat, j: int)
    requires x > y && j >= -1 && SameAbove(x, y, 64 * (j + 1))
    ensures j >= 0
  {
    if j == -1 {
      SameNumber(x, y);
    }
  }

  /** The second search: zero limbs in a, all ones in b. */
  method CountTail(a: seq<limb>, b: seq<limb>, bitOffset0: int, bOffset: int, n0: nat, d: nat, ghost tot: nat,
                   ghost j0: int)
    returns (n: nat)
    requires d <= 1 && Aligned(|a|, |b|, d, tot) && -1 <= j0 < tot
    requires bitOffset0 == 64 * (|a| - tot + j0) + 63 && bOffset == 64 * (|b| - |a|) - 63 + d
             && n0 == 64 * (tot - 1 - j0)
    requires OneApart(First(a, tot), Second(b, d, tot), 64 * (j0 + 1))
    ensures First(a, tot) > Second(b, d, tot) && BitLength(First(a, tot) - Second(b, d, tot)) + n >= 64 * tot
  {
    hide LimbOf, First, Second, P2, BitLength, LeadingZeros, OneApart, Clz;
    ghost var x, y := First(a, tot), Second(b, d, tot);
    OneApartOrder(x, y, 64 * (j0 + 1));
    var bitOffset := bitOffset0;
    ghost var j := j0;
    n := n0;
    while true
      invariant -1 <= j < tot && bitOffset == 64 * (|a| - tot + j) + 63 && n == 64 * (tot - 1 - j)
      invariant OneApart(x, y, 64 * (j + 1))
      decreases j + 1
    {
      var v1, v2 := LimbPair(a, b, bitOffset, bOffset, d, tot, j);
      WholeField(v1, v2);
      if j >= 0 {
        Scanned(x, y, j, 64, v1, BASE - 1 - v2);
      }
      if v1 != 0 || v2 != BASE - 1 {
        var p1 := LeadingZeros(v1, BASE - 1 - v2);
        n := n + p1;
        return;
      }
      n := n + 64;
      bitOffset := bitOffset - 64;
      j := j - 1;
    }
  }
}
