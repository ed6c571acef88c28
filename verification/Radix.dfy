/** Conversion of integers from and to another radix by divide and conquer (libbf.c bf_integer_from_radix and
    bf_integer_to_radix). Numbers are integers here: the operations used are exact at infinite precision. */
module Radix {
  import opened Limbs
  import opened BitFields
  import opened Congruence
  import opened NttSize
  import opened NttLoad

  /** The number with the given digits, lowest first. */
  ghost function DigitsValue(d: seq<limb>, radix: int): int {
    if d == [] then 0 else DigitsValue(d[..|d| - 1], radix) + d[|d| - 1] * Power(radix, |d| - 1)
  }

  ghost predicate DigitsBelow(d: seq<limb>, radix: int) {
    forall i :: 0 <= i < |d| ==> d[i] < radix
  }

  lemma {:induction false} DigitsConcat(s: seq<limb>, t: seq<limb>, radix: int)
    ensures DigitsValue(s + t, radix) == DigitsValue(s, radix) + Mul(DigitsValue(t, radix), Power(radix, |s|))
    decreases |t|
  {
    if t == [] {
      assert s + t == s;
    } else {
      var n := |t| - 1;
      assert (s + t)[..|s| + n] == s + t[..n];
      DigitsConcat(s, t[..n], radix);
      PowerAdd(radix, |s|, n);
      DigitStep(DigitsValue(t[..n], radix), t[n], Power(radix, n), Power(radix, |s|));
    }
  }

  lemma DigitStep(v: int, d: int, p: int, q: int)
    ensures Mul(v + d * p, q) == Mul(v, q) + d * (q * p)
  {
    MulDist(v, d * p, q);
    assert d * p * q == d * (q * p);
  }

  lemma {:induction false} PowerPositive(radix: int, n: nat)
    requires radix >= 1
    ensures Power(radix, n) >= 1
  {
    if n > 0 {
      PowerPositive(radix, n - 1);
      MulMono(1, Power(radix, n - 1), radix);
    }
  }

  /** n digits below the radix make a number below its n-th power. */
  lemma {:induction false} DigitsBound(d: seq<limb>, radix: int)
    requires radix >= 1 && DigitsBelow(d, radix)
    ensures 0 <= DigitsValue(d, radix) < Power(radix, |d|)
  {
    if d != [] {
      var n := |d| - 1;
      DigitsBound(d[..n], radix);
      MulMono(0, d[n], Power(radix, n));
      var top: int := d[n];
      MulMono(top + 1, radix, Power(radix, n));
      MulDist(top, 1, Power(radix, n));
    }
  }

  /** The digits are unique. */
  lemma {:induction false} DigitsUnique(s: seq<limb>, t: seq<limb>, radix: int)
    requires radix >= 1 && |s| == |t| && DigitsBelow(s, radix) && DigitsBelow(t, radix)
             && DigitsValue(s, radix) == DigitsValue(t, radix)
    ensures s == t
  {
    if s != [] {
      var n := |s| - 1;
      DigitsBound(s[..n], radix);
      DigitsBound(t[..n], radix);
      DivModUnique(DigitsValue(s, radix), Power(radix, n), s[n], DigitsValue(s[..n], radix));
      DivModUnique(DigitsValue(t, radix), Power(radix, n), t[n], DigitsValue(t[..n], radix));
      DigitsUnique(s[..n], t[..n], radix);
      assert s == s[..n] + [s[n]] && t == t[..n] + [t[n]];
    }
  }

  // The sizes of the parts.

  /** The part has the size that its level stands for, or one more. */
  ghost predicate SizeAt(n: nat, level: nat, n0: nat) {
    n >= 1 && n0 / P2(level) <= n <= n0 / P2(level) + 1
  }

  /** n2: the size of the lower part at a level. */
  function LowerSize(n0: nat, level: nat): nat {
    QuotientIs(n0, level);
    (n0 * 2 / P2(level + 1) + 1) / 2
  }

  lemma QuotientIs(n0: nat, level: nat)
    ensures n0 * 2 / P2(level + 1) == n0 / P2(level) >= 0
  {
    var q, r := n0 / P2(level), n0 % P2(level);
    assert n0 == q * P2(level) + r;
    DivModUnique(n0 * 2, P2(level + 1), q, r * 2) by {
      assert q * (2 * P2(level)) == 2 * (q * P2(level));
    }
    if q < 0 {
      MulMono(q, -1, P2(level));
    }
  }

  /** Both parts have a size of the next level, so the power kept for a level is the right one. */
  lemma PartSizes(n: nat, level: nat, n0: nat)
    requires n >= 2 && SizeAt(n, level, n0)
    ensures 1 <= LowerSize(n0, level) < n <= 2 * LowerSize(n0, level) + 1
    ensures SizeAt(LowerSize(n0, level), level + 1, n0) && SizeAt(n - LowerSize(n0, level), level + 1, n0)
  {
    QuotientIs(n0, level);
    HalfAgain(n0, level);
  }

  lemma HalfAgain(n0: nat, level: nat)
    ensures n0 / P2(level + 1) == (n0 / P2(level)) / 2
  {
    var q := n0 / P2(level);
    var r := n0 % P2(level);
    assert n0 == q * P2(level) + r;
    var h, b := q / 2, q % 2;
    assert q == 2 * h + b;
    assert n0 == h * (2 * P2(level)) + (b * P2(level) + r);
    assert b * P2(level) == if b == 0 then 0 else P2(level);
    DivModUnique(n0, P2(level + 1), h, b * P2(level) + r);
  }

  /** The tables of powers are long enough. */
  lemma LevelFits(n: nat, level: nat, n0: nat)
    requires n >= 2 && SizeAt(n, level, n0) && n0 >= 1
    ensures level < CeilLog2(n0) + 2
  {
    if level >= CeilLog2(n0) + 1 {
      if n0 > 1 {
        BitLengthIs(n0 - 1);
        P2Monotone(BitLength(n0 - 1) + 1, level);
      } else {
        P2Monotone(1, level);
      }
      DivModUnique(n0, P2(level), 0, n0);
    }
  }

  // From another radix.

  /** The powers kept so far are the right ones; zero stands for none. */
  ghost predicate Cached(powTab: seq<nat>, n0: nat, radix: int) {
    forall level :: 0 <= level < |powTab| && powTab[level] != 0 ==> powTab[level] == Power(radix, LowerSize(n0, level))
  }

  /** The power for a level, from the table or new. */
  method PowerAt(powTab: array<nat>, level: nat, n0: nat, radix: int) returns (b: nat)
    requires radix >= 2 && level < powTab.Length && Cached(powTab[..], n0, radix)
    modifies powTab
    ensures b == Power(radix, LowerSize(n0, level)) && b >= 1 && Cached(powTab[..], n0, radix)
  {
    hide Power, LowerSize;
    PowerPositive(radix, LowerSize(n0, level));
    if powTab[level] == 0 {
      b := PowUi(radix, LowerSize(n0, level));
      powTab[level] := b;
    }
    b := powTab[level];
  }

  /** bf_pow_ui_ui at infinite precision. */
  method PowUi(a: int, b: nat) returns (r: nat)
    requires a >= 2
    ensures r == Power(a, b)
  {
    r := 1;
    var i := 0;
    while i < b
      invariant 0 <= i <= b && r == Power(a, i)
    {
      MulMono(0, r, a);
      r := a * r;
      i := i + 1;
    }
  }

  /** bf_integer_from_radix_rec: the digits from off on, n of them. */
  method FromRadixRec(tab: seq<limb>, off: nat, n: nat, level: nat, n0: nat, radix: limb, powTab: array<nat>)
    returns (r: nat)
    requires radix >= 2 && off + n <= |tab| && SizeAt(n, level, n0) && n0 >= 1 && powTab.Length == CeilLog2(n0) + 2
    requires Cached(powTab[..], n0, radix)
    modifies powTab
    ensures r == DigitsValue(tab[off..off + n], radix) && Cached(powTab[..], n0, radix)
    decreases n
  {
    hide Power, LowerSize, DigitsValue, Cached, SizeAt, CeilLog2, Mul;
    SizePositive(n, level, n0);
    if n == 1 {
      OneDigit(tab[off..off + 1], radix);
      return tab[off];
    }
    LevelFits(n, level, n0);
    PartSizes(n, level, n0);
    var n2 := LowerSize(n0, level);
    var n1 := n - n2;
    var b := PowerAt(powTab, level, n0, radix);
    r := FromRadixRec(tab, off + n2, n1, level + 1, n0, radix, powTab);
    ghost var high := r;
    r := Product(r, b);
    var t := FromRadixRec(tab, off, n2, level + 1, n0, radix, powTab);
    r := r + t;
    assert tab[off..off + n] == tab[off..off + n2] + tab[off + n2..off + n];
    DigitsConcat(tab[off..off + n2], tab[off + n2..off + n], radix);
  }

  /** bf_mul at infinite precision. */
  function Product(x: nat, y: nat): (r: nat)
    ensures r == Mul(x, y)
  {
    MulMono(0, x, y);
    x * y
  }

  lemma SizePositive(n: nat, level: nat, n0: nat)
    requires SizeAt(n, level, n0)
    ensures n >= 1
  {}

  lemma OneDigit(d: seq<limb>, radix: int)
    requires |d| == 1
    ensures DigitsValue(d, radix) == d[0]
  {
    assert d[..0] == [];
    MulUnit(d[0]);
  }

  /** bf_integer_from_radix */
  method FromRadix(tab: seq<limb>, radix: limb) returns (r: nat)
    requires radix >= 2 && |tab| >= 1
    ensures r == DigitsValue(tab, radix)
  {
    var n := |tab|;
    var powTab := new nat[CeilLog2(n) + 2](i => 0);
    WholeSize(n);
    r := FromRadixRec(tab, 0, n, 0, n, radix, powTab);
    assert tab[0..n] == tab;
  }

  lemma WholeSize(n: nat)
    requires n >= 1
    ensures SizeAt(n, 0, n)
  {
    DivModUnique(n, 1, n, 0);
  }

  // To another radix.

  /** q and r after the adjustment: the exact quotient and remainder, whatever the estimate was. */
  method Adjust(a: nat, b: nat, q0: int) returns (q: int, r: int, ghost rounds: nat)
    requires b >= 1
    ensures a == Mul(q, b) + r && 0 <= r < b
    ensures rounds == if q < q0 then q0 - q else q - q0
  {
    hide Mul;
    q := q0;
    r := a - Times(q, b);
    rounds := 0;
    // the estimate was too large, or too small
    while r < 0
      invariant a == Mul(q, b) + r && rounds == q0 - q && (rounds > 0 ==> r < b)
      decreases -r
    {
      NextProducts(q, b);
      r := r + b;
      q := q - 1;
      rounds := rounds + 1;
    }
    while r >= b
      invariant a == Mul(q, b) + r && r >= 0
      invariant (q >= q0 && rounds == q - q0) || (r < b && rounds == q0 - q)
      decreases r
    {
      NextProducts(q, b);
      r := r - b;
      q := q + 1;
      rounds := rounds + 1;
    }
  }

  function Times(x: int, y: int): (r: int)
    ensures r == Mul(x, y)
  {
    x * y
  }

  lemma NextProducts(q: int, b: int)
    ensures Mul(q - 1, b) == Mul(q, b) - b && Mul(q + 1, b) == Mul(q, b) + b
  {}

  /** The digits written from off on. */
  ghost predicate Written(out: seq<limb>, off: nat, n: nat, radix: int, a: nat) {
    off + n <= |out| && DigitsBelow(out[off..off + n], radix) && DigitsValue(out[off..off + n], radix) == a
  }

  ghost predicate OnlyFrom(s: seq<limb>, t: seq<limb>, off: nat, n: nat) {
    |s| == |t| && forall i :: 0 <= i < |s| && !(off <= i < off + n) ==> s[i] == t[i]
  }

  /** bf_integer_to_radix_rec: n digits of a from off on; the estimate of the quotient may be any number. */
  method ToRadixRec(powTab: array<nat>, out: array<limb>, off: nat, a: nat, n: nat, level: nat, n0: nat, radix: limb,
                    estimate: (nat, nat) -> int)
    requires radix >= 2 && off + n <= out.Length && SizeAt(n, level, n0) && n0 >= 1 && powTab.Length == CeilLog2(n0) + 2
    requires a < Power(radix, n) && Cached(powTab[..], n0, radix) && (powTab as object) != (out as object)
    modifies powTab, out
    ensures Written(out[..], off, n, radix, a) && OnlyFrom(old(out[..]), out[..], off, n)
    ensures Cached(powTab[..], n0, radix)
    decreases n
  {
    hide Power, LowerSize, DigitsValue, Cached, SizeAt, CeilLog2, Mul, Written, OnlyFrom;
    SizePositive(n, level, n0);
    ghost var s0 := out[..];
    if n == 1 {
      OneWritten(s0, off, radix, a);
      out[off] := a;
    } else if n == 2 {
      TwoWritten(s0, off, radix, a);
      out[off], out[off + 1] := a % radix, a / radix;
    } else {
      LevelFits(n, level, n0);
      PartSizes(n, level, n0);
      var n2 := LowerSize(n0, level);
      var n1 := n - n2;
      var b := PowerAt(powTab, level, n0, radix);
      var q, r;
      ghost var rounds;
      q, r, rounds := Adjust(a, b, estimate(a, b));
      QuotientFits(a, b, q, r, radix, n1, n2);
      ToRadixRec(powTab, out, off + n2, q, n1, level + 1, n0, radix, estimate);
      ghost var s1 := out[..];
      ToRadixRec(powTab, out, off, r, n2, level + 1, n0, radix, estimate);
      BothWritten(s0, s1, out[..], off, n1, n2, radix, q, r, a, b);
    }
  }

  lemma OneWritten(s: seq<limb>, off: nat, radix: limb, a: nat)
    requires radix >= 2 && off < |s| && a < Power(radix, 1)
    ensures a < radix && Written(s[off := a], off, 1, radix, a) && OnlyFrom(s, s[off := a], off, 1)
  {
    assert Power(radix, 1) == radix * Power(radix, 0);
    OneDigit(s[off := a][off..off + 1], radix);
  }

  lemma TwoWritten(s: seq<limb>, off: nat, radix: limb, a: nat)
    requires radix >= 2 && off + 1 < |s| && a < Power(radix, 2)
    ensures 0 <= a % radix < radix && 0 <= a / radix < radix
    ensures
      var t := s[off := a % radix][off + 1 := a / radix];
      Written(t, off, 2, radix, a) && OnlyFrom(s, t, off, 2)
  {
    assert Power(radix, 1) == radix * Power(radix, 0);
    assert Power(radix, 2) == radix * radix;
    RadixQuotient(a, radix);
    var t := s[off := a % radix][off + 1 := a / radix];
    var d := t[off..off + 2];
    assert d == [a % radix, a / radix] && d[..1] == [a % radix];
    OneDigit(d[..1], radix);
  }

  lemma RadixQuotient(a: nat, radix: int)
    requires radix >= 2 && a < radix * radix
    ensures 0 <= a % radix < radix && 0 <= a / radix < radix && a % radix + (a / radix) * radix == a
  {
    DivModFacts(a, radix);
    QuotientNatural(a, radix);
    if a / radix >= radix {
      MulMono(radix, a / radix, radix);
    }
  }

  lemma QuotientFits(a: nat, b: nat, q: int, r: int, radix: int, n1: nat, n2: nat)
    requires radix >= 2 && b == Power(radix, n2) && b >= 1 && a < Power(radix, n1 + n2) && a == Mul(q, b) + r
             && 0 <= r < b
    ensures 0 <= q < Power(radix, n1)
  {
    PowerAdd(radix, n1, n2);
    if q < 0 {
      MulMono(q, -1, b);
    } else if q >= Power(radix, n1) {
      MulMono(Power(radix, n1), q, b);
    }
  }

  lemma BothWritten(s0: seq<limb>, s1: seq<limb>, s2: seq<limb>, off: nat, n1: nat, n2: nat, radix: limb, q: nat,
                    r: nat, a: nat, b: nat)
    requires Written(s1, off + n2, n1, radix, q) && OnlyFrom(s0, s1, off + n2, n1)
    requires Written(s2, off, n2, radix, r) && OnlyFrom(s1, s2, off, n2)
    requires a == Mul(q, b) + r && b == Power(radix, n2)
    ensures Written(s2, off, n1 + n2, radix, a) && OnlyFrom(s0, s2, off, n1 + n2)
  {
    hide Power, DigitsValue, Mul;
    var n := n1 + n2;
    var low, high := s2[off..off + n2], s2[off + n2..off + n];
    assert high == s1[off + n2..off + n2 + n1];
    assert s2[off..off + n] == low + high;
    DigitsConcat(low, high, radix);
  }

  /** bf_integer_to_radix: the n digits of a. */
  method ToRadix(out: array<limb>, a: nat, radix: limb, estimate: (nat, nat) -> int)
    requires radix >= 2 && out.Length >= 1 && a < Power(radix, out.Length)
    modifies out
    ensures DigitsBelow(out[..], radix) && DigitsValue(out[..], radix) == a
  {
    hide Power, DigitsValue;
    var n := out.Length;
    var powTab := new nat[CeilLog2(n) + 2](i => 0);
    WholeSize(n);
    ToRadixRec(powTab, out, 0, a, n, 0, n, radix, estimate);
    assert out[0..n] == out[..];
  }
}
