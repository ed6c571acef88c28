/** Normalization and rounding of floating point numbers (libbf.c bf_get_rnd_add, __bf_round,
    bf_normalize_and_round), for exponents that neither underflow nor overflow. */
module FloatRound {
  import opened Limbs
  import opened LimbArith
  import opened Bits
  import opened BitFields
  import opened NttLoad
  import opened NttSize
  import opened FloatSpec

  const EXP_ZERO: int := -0x8000_0000_0000_0000

  /** bf_t: the number (-1)^sign * Val(tab) * 2^(expn - 64 * |tab|). */
  class Bf {
    var sign: bool
    var expn: int
    var tab: seq<limb>

    constructor ()
      ensures !sign && tab == [] && expn == EXP_ZERO
    {
      sign, expn, tab := false, EXP_ZERO, [];
    }

    /** The weight of the lowest bit. */
    ghost function Unit(): int
      reads this
    {
      expn - 64 * |tab|
    }

    /** Finite, not zero, in canonical form: the top bit is set and the lowest limb is not zero. */
    ghost predicate Normal()
      reads this
    {
      |tab| >= 1 && tab[|tab| - 1] >= HALF && tab[0] != 0 && expn > EXP_ZERO
    }

    ghost predicate Zero()
      reads this
    {
      tab == [] && expn == EXP_ZERO
    }
  }

  /** n * 2^e == n' * 2^e' */
  ghost predicate Same(n: int, e: int, n': int, e': int) {
    if e <= e' then n == n' * P2(e' - e) else n' == n * P2(e - e')
  }

  // Looking at bits.

  /** limb_mask(start, 63): all bits from start on. */
  function HighMask(start: nat): limb
    requires start < 64
  {
    P2Small(start);
    BASE - P2(start)
  }

  lemma {:induction false} AndHigh(x: nat, s: nat, n: nat)
    requires s <= n && x < P2(n)
    ensures P2(s) <= P2(n) && x % P2(s) <= x && BitAnd(x, P2(n) - P2(s)) == x - x % P2(s)
    decreases n
  {
    P2Monotone(s, n);
    RemainderSmall(x, P2(s));
    if s == 0 {
      AndMask(x, n);
      DivModUnique(x, P2(n), 0, x);
    } else {
      AndHigh(x / 2, s - 1, n - 1);
      LowBits(x, P2(s - 1));
      HighStep(x, P2(n - 1), P2(s - 1));
    }
  }

  lemma HighStep(x: nat, n: nat, s: nat)
    requires 1 <= s <= n
    ensures BitAnd(x, 2 * n - 2 * s) == 2 * BitAnd(x / 2, n - s)
  {
    assert (2 * n - 2 * s) / 2 == n - s && (2 * n - 2 * s) % 2 == 0;
    if x == 0 || n == s {
      assert BitAnd(x / 2, n - s) == 0;
    }
  }

  /** get_bit */
  method GetBit(tab: seq<limb>, pos: int) returns (b: int)
    ensures b == if 0 <= pos then Bit(Val(tab), pos) else 0
  {
    hide Val, P2;
    var i := pos / 64;
    if i < 0 || i >= |tab| {
      if pos >= 0 {
        BitBeyond(tab, pos);
      }
      return 0;
    }
    BitOfLimb(tab, pos, i, pos % 64);
    b := Bit(tab[i], pos % 64);
  }

  lemma BitBeyond(tab: seq<limb>, pos: nat)
    requires pos >= 64 * |tab|
    ensures Bit(Val(tab), pos) == 0
  {
    hide Val, P2;
    ValBound(tab);
    P2Pow(|tab|);
    P2Monotone(64 * |tab|, pos);
    DivModUnique(Val(tab), P2(pos), 0, Val(tab));
  }

  lemma BitOfLimb(tab: seq<limb>, pos: nat, i: nat, p: nat)
    requires i < |tab| && p < 64 && pos == 64 * i + p
    ensures Bit(Val(tab), pos) == Bit(tab[i], p)
  {
    hide Val, Pow;
    PositionSplit(tab, tab[i..], pos, i, p);
    assert tab[i..] == [tab[i]] + tab[i + 1..];
    ValCons(tab[i], tab[i + 1..]);
    P2Split(p);
    assert P2(64 - p) == 2 * P2(63 - p);
    hide P2;
    QuotientNatural(tab[i], P2(p));
    QuotientNatural(Val(tab[i..]), P2(p));
    BitNumbers(tab[i], Val(tab[i + 1..]), P2(p), P2(63 - p));
  }

  lemma BitNumbers(x: nat, h: nat, p: nat, q: nat)
    requires p >= 1 && Mul(p, 2 * q) == BASE
    ensures ((x + BASE * h) / p) % 2 == (x / p) % 2
  {
    var f, r := x / p, x % p;
    assert x == f * p + r;
    var g := f + 2 * (q * h);
    assert x + BASE * h == g * p + r by {
      assert p * (2 * q) * h == 2 * (q * h) * p;
      MulDist(f, 2 * (q * h), p);
    }
    DivModUnique(x + BASE * h, p, g, r);
  }

  /** scan_bit_nz: is one of the bits up to bitPos set? */
  method ScanBitNz(tab: seq<limb>, bitPos: int) returns (nz: bool)
    requires bitPos < 64 * |tab|
    ensures nz <==> bitPos >= 0 && Val(tab) % P2(bitPos + 1) != 0
  {
    hide Val, P2, Pow, BitAnd;
    var pos := bitPos / 64;
    if pos < 0 {
      return false;
    }
    var s := bitPos % 64 + 1;
    LowLimb(tab, pos, s);
    LowMask(tab[pos], s);
    if BitAnd(tab[pos], P2(s) - 1) != 0 {
      return true;
    }
    ghost var top := pos;
    pos := pos - 1;
    while pos >= 0
      invariant -1 <= pos < top && top < |tab|
      invariant forall j :: pos < j < top ==> tab[j] == 0
    {
      if tab[pos] != 0 {
        ValZeros(tab[..top]);
        assert tab[..top][pos] != 0;
        return true;
      }
      pos := pos - 1;
    }
    ValZeros(tab[..top]);
    return false;
  }

  lemma LowMask(x: limb, s: nat)
    requires 1 <= s <= 64
    ensures P2(s) >= 1 && BitAnd(x, P2(s) - 1) == x % P2(s)
  {
    AndMask(x, s);
  }

  /** The low bits of a number: those of a limb and all limbs below. */
  lemma LowLimb(tab: seq<limb>, pos: nat, s: nat)
    requires pos < |tab| && 1 <= s <= 64
    ensures Val(tab) % P2(64 * pos + s) == 0 <==> tab[pos] % P2(s) == 0 && Val(tab[..pos]) == 0
  {
    hide Val, Pow, P2;
    ValSplit(tab, pos);
    ValBound(tab[..pos]);
    P2Pow(pos);
    P2Add(64 * pos, s);
    assert tab[pos..] == [tab[pos]] + tab[pos + 1..];
    ValCons(tab[pos], tab[pos + 1..]);
    DivModUnique(Val(tab), Pow(pos), Val(tab[pos..]), Val(tab[..pos]));
    ModSplit(Val(tab), Pow(pos), P2(s));
    ModMod(Val(tab[pos..]), s);
    DivModUnique(Val(tab[pos..]), BASE, Val(tab[pos + 1..]), tab[pos]);
    RemainderBound(tab[pos], P2(s));
    ZeroSum(Val(tab[..pos]), Pow(pos), tab[pos] % P2(s));
  }

  /** bf_get_rnd_add for a number whose top bit is set. */
  method BfGetRndAdd(tab: seq<limb>, neg: bool, prec: nat, mode: Mode) returns (addOne: bool, inexact: bool)
    requires prec >= 1 && |tab| >= 1 && BitLength(Val(tab)) == 64 * |tab|
    ensures addOne == RoundUp(Val(tab), Excess(Val(tab), prec), neg, mode)
    ensures inexact == (mode.Faithful? || Val(tab) % P2(Excess(Val(tab), prec)) != 0)
  {
    hide Val, BitLength, Bit;
    var l := |tab|;
    var bit0 := true;
    if mode != Faithful {
      bit0 := ScanBitNz(tab, l * 64 - 1 - (prec + 1));
    }
    var bit1 := GetBit(tab, l * 64 - 1 - prec);
    ghost var k := Excess(Val(tab), prec);
    RestOfBits(Val(tab), k);
    inexact := bit1 != 0 || bit0;
    addOne := false;
    match mode {
      case TowardZero =>
      case NearestEven =>
        if bit1 != 0 {
          if bit0 {
            addOne := true;
          } else {
            var odd := GetBit(tab, l * 64 - 1 - (prec - 1));
            addOne := odd != 0;
          }
        }
      case Down =>
        if neg {
          addOne := inexact;
        }
      case Up =>
        if !neg {
          addOne := inexact;
        }
      case Away =>
        addOne := inexact;
      case NearestAway =>
        addOne := bit1 != 0;
      case Faithful =>
        addOne := bit1 != 0;
    }
  }

  /** The bits below the bit k: the highest of them and the rest. */
  lemma RestOfBits(n: nat, k: nat)
    ensures k > 0 ==> 0 <= Bit(n, k - 1) <= 1 && (n % P2(k) == 0 <==> Bit(n, k - 1) == 0 && n % P2(k - 1) == 0)
    ensures 0 <= Bit(n, k) <= 1 && n % P2(0) == 0 && (k == 1 ==> n % P2(k - 1) == 0)
  {
    assert P2(0) == 1;
    DivModUnique(n, 1, n, 0);
    if k > 0 {
      var f, h, t := Split(n, k);
      HalfPower(k);
      hide P2, Bit;
      var p := P2(k - 1);
      assert h * p == if h == 0 then 0 else p;
      DivModUnique(n, P2(k), f, h * p + t);
    }
  }

  // Changing the mantissa.

  /** Adds the bit bitPos to the first l limbs; returns the carry out. */
  method AddAt(r: Bf, l: nat, bitPos: nat) returns (carry: limb)
    requires l <= |r.tab| && bitPos < 64 * l
    modifies r`tab
    ensures |r.tab| == old(|r.tab|) && r.tab[l..] == old(r.tab[l..]) && carry <= 1
    ensures Val(r.tab[..l]) + Mul(carry, Pow(l)) == old(Val(r.tab[..l])) + P2(bitPos)
  {
    hide Val, Pow, P2, Mul;
    var pos := bitPos / 64;
    P2Small(bitPos % 64);
    carry := P2(bitPos % 64);
    ghost var A, Z, c := r.tab[pos..l], Zeros(l - pos), carry;
    ghost var R: seq<limb> := [];
    ghost var tab0 := r.tab;
    LinearStart(A, Z, 0, c);
    var i := pos;
    while i < l && carry != 0
      invariant pos <= i <= l && |r.tab| == |tab0| && |R| == i - pos
      invariant forall j :: 0 <= j < |tab0| && !(pos <= j < i) ==> r.tab[j] == tab0[j]
      invariant forall j :: pos <= j < i ==> r.tab[j] == R[j - pos]
      invariant Linear(R, A, Z, 0, c, carry) && (i > pos ==> carry <= 1)
    {
      var v := (r.tab[i] + carry) % BASE;
      var carry' := if v < carry then 1 else 0;
      assert r.tab[i] == A[i - pos];
      LinearStep(R, A, Z, 0, c, carry, v, carry');
      r.tab := r.tab[i := v];
      R := R + [v];
      carry := carry';
      i := i + 1;
    }
    Joined(r.tab, tab0, R, pos, i, l);
    if carry == 0 {
      LinearTail(R, A, Z, 0, c);
    } else {
      LinearDone(R, A, Z, 0, c, carry);
      MulUnit(Val(Z));
      assert A[i - pos..] == [] && R + [] == R;
    }
    assert tab0[..l][pos..] == A && r.tab[..l][pos..] == r.tab[pos..l];
    AddedAt(tab0[..l], r.tab[..l], pos, bitPos % 64, carry);
  }

  lemma Joined(t: seq<limb>, s: seq<limb>, R: seq<limb>, pos: nat, i: nat, l: nat)
    requires pos <= i <= l <= |t| == |s| && |R| == i - pos
    requires (forall j :: 0 <= j < |s| && !(pos <= j < i) ==> t[j] == s[j])
             && forall j :: pos <= j < i ==> t[j] == R[j - pos]
    ensures t[pos..l] == R + s[pos..l][i - pos..]
  {
    var x, y := t[pos..l], R + s[pos..l][i - pos..];
    forall k | 0 <= k < l - pos
      ensures x[k] == y[k]
    {
      if k < i - pos {
        assert t[pos + k] == R[k];
      } else {
        assert t[pos + k] == s[pos + k];
      }
    }
  }

  lemma AddedAt(s: seq<limb>, t: seq<limb>, pos: nat, p: nat, carry: int)
    requires pos < |s| == |t| && s[..pos] == t[..pos] && p < 64
    requires Val(t[pos..]) + Mul(carry, Pow(|s| - pos)) == Val(s[pos..]) + P2(p)
             || (carry == 0 && Val(t[pos..]) == Val(s[pos..]) + P2(p))
    ensures Val(t) + Mul(carry, Pow(|s|)) == Val(s) + P2(64 * pos + p)
  {
    hide Val, Pow, P2;
    ValSplit(s, pos);
    ValSplit(t, pos);
    PowAdd(pos, |s| - pos);
    P2Pow(pos);
    P2Add(64 * pos, p);
    AddedNumbers(Pow(pos), Pow(|s| - pos), Val(s[pos..]), Val(t[pos..]), P2(p), carry);
  }

  lemma AddedNumbers(b: int, q: int, s: int, t: int, p: int, carry: int)
    requires t + Mul(carry, q) == s + p || (carry == 0 && t == s + p)
    ensures b * t + carry * (b * q) == b * s + b * p
  {
    assert carry * (b * q) == b * (carry * q);
    MulDist(t, carry * q, b);
    MulDist(s, p, b);
  }

  /** Shifts the limbs from pos to l right by one bit and sets the top bit; the limbs above pos are zero. */
  method ShiftTop(r: Bf, l: nat, pos: nat)
    requires pos < l <= |r.tab| && forall j :: pos < j < l ==> r.tab[j] == 0
    modifies r`tab
    ensures |r.tab| == old(|r.tab|) && r.tab[l..] == old(r.tab[l..]) && r.tab[..pos] == old(r.tab[..pos])
    ensures forall j :: pos < j < l - 1 ==> r.tab[j] == 0
    ensures pos < l - 1 ==> r.tab[l - 1] == HALF && r.tab[pos] == old(r.tab[pos]) / 2
    ensures pos == l - 1 ==> r.tab[pos] == HALF + old(r.tab[pos]) / 2
  {
    hide BitOr;
    var v: limb := 1;
    var i := l - 1;
    ghost var tab0 := r.tab;
    while i >= pos
      invariant pos - 1 <= i < l && |r.tab| == |tab0| && v == if i == l - 1 then 1 else tab0[i + 1]
      invariant forall j :: 0 <= j < |tab0| && !(i < j < l) ==> r.tab[j] == tab0[j]
      invariant forall j :: i < j < l ==> r.tab[j] == (tab0[j] as int) / 2 + (if j == l - 1 then HALF else 0)
    {
      var a := r.tab[i];
      TopOr(a, v);
      r.tab := r.tab[i := BitOr(a / 2, (v * HALF) % BASE)];
      v := a;
      i := i - 1;
    }
  }

  lemma TopOr(a: limb, v: limb)
    requires v <= 1 || a < BASE
    ensures BitOr(a / 2, (v * HALF) % BASE) == a / 2 + (if v % 2 == 1 then HALF else 0) < BASE
  {
    P2Limb();
    assert (v * HALF) % BASE == if v % 2 == 1 then HALF else 0;
    DivModUnique(HALF, HALF, 1, 0);
    DivModUnique(0, HALF, 0, 0);
    OrDisjoint(a / 2, (v * HALF) % BASE, 63);
  }

  /** Clears the bits below bitPos and drops zero limbs at the low end. */
  method Trim(r: Bf, l: nat, bitPos: int)
    requires 1 <= l <= |r.tab| && r.tab[l - 1] >= HALF && bitPos < 64 * l
    modifies r`tab
    ensures |r.tab| >= 1 && r.tab[|r.tab| - 1] >= HALF && r.tab[0] != 0 && |r.tab| <= l
    ensures
      var k := if bitPos < 0 then 0 else bitPos;
      Mul(Val(r.tab), Pow(l - |r.tab|)) == Cleared(Val(old(r.tab[..l])), k)
  {
    hide Val, Pow, P2, Mul, Cleared;
    ghost var c := Cleared(Val(r.tab[..l]), if bitPos < 0 then 0 else bitPos);
    var i := ClearLow(r, l, bitPos);
    ghost var tab := r.tab;
    while r.tab[i] == 0
      invariant r.tab == tab && 0 <= i < l
      invariant Mul(Val(r.tab[i..l]), Pow(i)) == c
      decreases l - i
    {
      DropLow(r.tab[i..l], i);
      assert r.tab[i..l][1..] == r.tab[i + 1..l];
      i := i + 1;
    }
    r.tab := r.tab[i..l];
  }

  /** Clears the bits below bitPos in the limb that holds it, and returns that limb. */
  method ClearLow(r: Bf, l: nat, bitPos: int) returns (i: nat)
    requires 1 <= l <= |r.tab| && r.tab[l - 1] >= HALF && bitPos < 64 * l
    modifies r`tab
    ensures |r.tab| == old(|r.tab|) && r.tab[l - 1] >= HALF && i < l
    ensures Mul(Val(r.tab[i..l]), Pow(i)) == Cleared(Val(old(r.tab[..l])), if bitPos < 0 then 0 else bitPos)
  {
    hide Val, Pow, P2, Mul, BitAnd, Cleared;
    ghost var X := r.tab[..l];
    if bitPos < 0 {
      i := 0;
      ClearedNothing(Val(X));
      assert r.tab[0..l] == X;
      PowNone();
      MulUnit(Val(X));
    } else {
      i := bitPos / 64;
      var shift := bitPos % 64;
      MaskKeeps(r.tab[i], shift);
      if shift != 0 {
        r.tab := r.tab[i := BitAnd(r.tab[i], HighMask(shift))];
      }
      ClearedLimbs(X, r.tab[..l], i, shift);
      assert r.tab[..l][i..] == r.tab[i..l];
    }
  }

  lemma PowNone()
    ensures Pow(0) == 1
  {}

  /** n with the bits below k cleared. */
  ghost function Cleared(n: nat, k: nat): nat {
    QuotientNatural(n, P2(k));
    MulMono(0, n / P2(k), P2(k));
    Mul(n / P2(k), P2(k))
  }

  lemma ClearedNothing(n: nat)
    ensures Cleared(n, 0) == n
  {
    assert P2(0) == 1;
    DivModUnique(n, 1, n, 0);
  }

  lemma DropLow(s: seq<limb>, i: nat)
    requires |s| >= 1 && s[0] == 0
    ensures Mul(Val(s), Pow(i)) == Mul(Val(s[1..]), Pow(i + 1))
  {
    assert s == [s[0]] + s[1..];
    ValCons(s[0], s[1..]);
    MulAssoc(Val(s[1..]), BASE, Pow(i));
  }

  lemma MaskKeeps(x: limb, shift: nat)
    requires shift < 64
    ensures 0 <= x % P2(shift) <= x
    ensures BitAnd(x, HighMask(shift)) == x - x % P2(shift) && (x >= HALF ==> x - x % P2(shift) >= HALF)
    ensures shift == 0 ==> x % P2(shift) == 0
  {
    P2Limb();
    AndHigh(x, shift, 64);
    PowerZero(x);
    P2Split(shift);
    RemainderSmall(x, P2(shift));
    hide P2, BitAnd, HighMask;
    if x >= HALF {
      P2Add(shift, 63 - shift);
      TopStays(x, P2(shift), P2(63 - shift));
    }
  }

  lemma TopStays(x: nat, p: nat, q: nat)
    requires p >= 1 && Mul(p, q) == HALF && x >= HALF
    ensures x - x % p >= HALF
  {
    var f := x / p;
    assert x == f * p + x % p;
    if f < q {
      MulMono(f + 1, q, p);
    }
    MulMono(q, f, p);
  }

  /** The limbs from i on, the lowest of them masked. */
  lemma ClearedLimbs(s: seq<limb>, t: seq<limb>, i: nat, shift: nat)
    requires i < |s| == |t| && shift < 64 && t == s[i := t[i]] && t[i] == s[i] - s[i] % P2(shift)
    ensures Mul(Val(t[i..]), Pow(i)) == Cleared(Val(s), 64 * i + shift)
  {
    hide Val, Pow, P2, Mul;
    var h, low := s[i + 1..], s[..i];
    assert s[i..] == [s[i]] + h && t[i..] == [t[i]] + h;
    ValCons(s[i], h);
    ValCons(t[i], h);
    P2Split(shift);
    ValSplit(s, i);
    ValBound(low);
    P2Pow(i);
    P2Add(64 * i, shift);
    ClearedParts(Val(s), Val(low), s[i], Val(h), P2(shift), P2(64 - shift), Pow(i), P2(64 * i + shift));
  }

  /** The same on numbers: w cut below the multiple p of a power b of the base. */
  lemma ClearedParts(w: nat, low: nat, x: nat, h: nat, p: nat, q: nat, b: nat, bp: nat)
    requires p >= 1 && p * q == BASE && b >= 1 && low < b && w == low + Mul(b, x + BASE * h) && bp == b * p
    ensures bp >= 1 && x - x % p >= 0 && Mul(x - x % p + BASE * h, b) == Mul(w / bp, bp)
  {
    MulSwap(b, x + BASE * h);
    MulMono(1, b, p);
    DivModUnique(w, b, x + BASE * h, low);
    DivDiv(w, b, p);
    DivModFacts(x, p);
    ClearedNumbers(x, h, p, q, b);
  }

  lemma ClearedNumbers(x: nat, h: nat, p: nat, q: nat, b: nat)
    requires p >= 1 && p * q == BASE && b >= 1
    ensures Mul(x - x % p + BASE * h, b) == Mul((x + BASE * h) / p, b * p)
  {
    var f, r := x / p, x % p;
    assert x == f * p + r;
    var g := f + q * h;
    assert x + BASE * h == g * p + r by {
      MulDist(f, q * h, p);
      assert p * q * h == q * h * p;
    }
    DivModUnique(x + BASE * h, p, g, r);
    assert g * (b * p) == g * p * b;
  }

  // Rounding.

  lemma TopLength(s: seq<limb>)
    requires |s| >= 1 && s[|s| - 1] >= HALF
    ensures BitLength(Val(s)) == 64 * |s| && Val(s) >= P2(64 * |s| - 1)
  {
    hide Val, Pow, P2;
    var n := |s|;
    ValTop(s);
    ValBound(s);
    P2Limb();
    P2Pow(n);
    P2Pow(n - 1);
    P2Add(64 * (n - 1), 63);
    MulMono(HALF, s[n - 1], Pow(n - 1));
    MulSwap(HALF, Pow(n - 1));
    LengthOf(Val(s), 64 * n);
  }

  /** A limb sequence of at least 2^(64 n - 1) has its top bit set. */
  lemma LengthTop(s: seq<limb>)
    requires |s| >= 1 && Val(s) >= P2(64 * |s| - 1)
    ensures s[|s| - 1] >= HALF
  {
    hide Val, Pow, P2;
    var n := |s|;
    ValTop(s);
    P2Limb();
    P2Pow(n - 1);
    P2Add(64 * (n - 1), 63);
    MulSwap(HALF, Pow(n - 1));
    if s[n - 1] < HALF {
      MulMono(s[n - 1] + 1, HALF, Pow(n - 1));
      MulDist(s[n - 1], 1, Pow(n - 1));
    }
  }

  /** What rounding promises: the rounded magnitude, and the flag. */
  ghost predicate Rounded(n: nat, e: int, prec: nat, neg: bool, mode: Mode, n': nat, e': int, inexact: bool) {
    && Same(RoundInt(n, prec, neg, mode), e, n', e')
    && inexact == (mode.Faithful? || RoundInt(n, prec, neg, mode) != n)
  }

  /** __bf_round */
  method BfRound(r: Bf, prec: nat, mode: Mode, l: nat) returns (inexact: bool)
    requires prec >= 1 && 1 <= l <= |r.tab| && r.tab[l - 1] >= HALF && r.expn - 64 * l > EXP_ZERO
    modifies r
    ensures r.Normal() && r.sign == old(r.sign)
    ensures Rounded(Val(old(r.tab[..l])), old(r.expn) - 64 * l, prec, r.sign, mode, Val(r.tab), r.Unit(), inexact)
  {
    hide Val, Pow, P2, Mul, RoundInt, RoundUp, Excess, Cleared, Same, BitLength;
    ghost var M, e := Val(r.tab[..l]), r.expn - 64 * l;
    TopLength(r.tab[..l]);
    ExcessIs(M, prec, l);
    var addOne;
    addOne, inexact := BfGetRndAdd(r.tab[..l], r.sign, prec, mode);
    RoundIntExact(M, prec, r.sign, mode);
    var bitPos := l * 64 - 1 - (prec - 1);
    ghost var shifted := RoundBits(r, l, bitPos, prec, mode, addOne, M);
    ghost var c := Cleared(Val(r.tab[..l]), Excess(M, prec));
    Trim(r, l, bitPos);
    FinishRound(RoundInt(M, prec, r.sign, mode), e, shifted, c, Val(r.tab), l, |r.tab|);
  }

  /** The mantissa before its low bits are cleared. */
  method RoundBits(r: Bf, l: nat, bitPos: int, prec: nat, mode: Mode, addOne: bool, ghost M: nat)
    returns (ghost shifted: bool)
    requires prec >= 1 && 1 <= l <= |r.tab| && r.tab[l - 1] >= HALF && M == Val(r.tab[..l]) && BitLength(M) == 64 * l
    requires bitPos == 64 * l - prec && addOne == RoundUp(M, Excess(M, prec), r.sign, mode)
    modifies r
    ensures |r.tab| == old(|r.tab|) && r.sign == old(r.sign) && r.expn == old(r.expn) + (if shifted then 1 else 0)
    ensures r.tab[l - 1] >= HALF
    ensures RoundInt(M, prec, r.sign, mode)
         == if shifted then 2 * Cleared(Val(r.tab[..l]), Excess(M, prec)) else Cleared(Val(r.tab[..l]), Excess(M, prec))
  {
    hide Val, Pow, P2, Mul, RoundInt, RoundUp, Excess, Cleared, BitLength;
    ghost var k := Excess(M, prec);
    ExcessIs(M, prec, l);
    shifted := false;
    if addOne {
      AddsBit(M, k, r.sign, mode);
      UpCleared(M, k, prec, r.sign, mode);
      shifted := RoundAdd(r, l, bitPos);
    } else {
      PlainCleared(M, k, prec, r.sign, mode);
    }
  }

  lemma FinishRound(n: nat, e: int, shifted: bool, c: nat, v: nat, l: nat, l': nat)
    requires l' <= l && Mul(v, Pow(l - l')) == c && n == if shifted then 2 * c else c
    ensures Same(n, e, v, e + (if shifted then 1 else 0) + 64 * (l - l'))
  {
    hide Pow;
    P2Pow(l - l');
    var j := 64 * (l - l');
    assert P2(j + 1) == 2 * P2(j);
    hide P2;
    assert v * (2 * P2(j)) == 2 * (v * P2(j));
  }

  /** The addition in __bf_round, with the shift when it carries out of the mantissa. */
  method RoundAdd(r: Bf, l: nat, bitPos: nat) returns (ghost shifted: bool)
    requires 1 <= l <= |r.tab| && r.tab[l - 1] >= HALF && 0 < bitPos < 64 * l
    modifies r
    ensures |r.tab| == old(|r.tab|) && r.sign == old(r.sign) && r.expn == old(r.expn) + (if shifted then 1 else 0)
    ensures r.tab[l - 1] >= HALF
    ensures Cleared(old(Val(r.tab[..l])) + P2(bitPos), bitPos)
         == if shifted then 2 * Cleared(Val(r.tab[..l]), bitPos) else Cleared(Val(r.tab[..l]), bitPos)
  {
    hide Val, Pow, P2, Mul, Cleared;
    ghost var M := Val(r.tab[..l]);
    TopLength(r.tab[..l]);
    var carry := AddAt(r, l, bitPos);
    ghost var s := r.tab[..l];
    shifted := carry != 0;
    MulUnit(Pow(l));
    ValBound(old(r.tab[..l]));
    if carry != 0 {
      TakeCarry(r, l, bitPos, M);
    } else {
      LengthTop(s);
    }
  }

  /** The carry comes out as the new top bit. */
  method TakeCarry(r: Bf, l: nat, bitPos: nat, ghost M: nat)
    requires 1 <= l <= |r.tab| && 0 < bitPos < 64 * l && M < Pow(l) && M + P2(bitPos) == Val(r.tab[..l]) + Pow(l)
    modifies r
    ensures |r.tab| == old(|r.tab|) && r.sign == old(r.sign) && r.expn == old(r.expn) + 1 && r.tab[l - 1] >= HALF
    ensures Cleared(M + P2(bitPos), bitPos) == 2 * Cleared(Val(r.tab[..l]), bitPos)
  {
    hide Val, Pow, P2, Mul, Cleared;
    ghost var s := r.tab[..l];
    var pos := bitPos / 64;
    SmallAbove(s, pos, bitPos % 64);
    assert forall j :: pos < j < l ==> r.tab[j] == s[j];
    ShiftTop(r, l, pos);
    r.expn := r.expn + 1;
    ghost var t := r.tab[..l];
    assert t[..pos] == s[..pos];
    ShiftedValue(s, t, pos, bitPos % 64, M);
  }

  /** A number below 2^(64 pos + p) has nothing above that bit. */
  lemma SmallAbove(s: seq<limb>, pos: nat, p: nat)
    requires pos < |s| && p < 64 && Val(s) < P2(64 * pos + p)
    ensures s[pos] < P2(p) && forall j :: pos < j < |s| ==> s[j] == 0
  {
    EmptyAbove(s, pos, p);
    hide Val, Pow, P2;
    P2Pow(pos + 1);
    P2Monotone(64 * pos + p, 64 * (pos + 1));
    ValSplit(s, pos + 1);
    var t := s[pos + 1..];
    if Val(t) > 0 {
      MulMono(1, Val(t), Pow(pos + 1));
      MulSwap(Pow(pos + 1), Val(t));
    }
    ValZeros(t);
    forall j | pos < j < |s|
      ensures s[j] == 0
    {
      assert s[j] == t[j - pos - 1];
    }
  }

  /** After the carry the mantissa is a power of two, up to bits that are cleared next. */
  lemma ShiftedValue(s: seq<limb>, t: seq<limb>, pos: nat, p: nat, M: nat)
    requires pos < |s| == |t| && p < 64 && s[pos] < P2(p) && 0 < 64 * pos + p && t[..pos] == s[..pos]
    requires forall j :: pos < j < |s| - 1 ==> t[j] == 0
    requires if pos < |s| - 1 then t[|s| - 1] == HALF && t[pos] == s[pos] / 2 else t[pos] == HALF + s[pos] / 2
    requires M + P2(64 * pos + p) == Val(s) + Pow(|s|) && Val(s) < P2(64 * pos + p)
    ensures t[|s| - 1] >= HALF
    ensures Cleared(M + P2(64 * pos + p), 64 * pos + p) == 2 * Cleared(Val(t), 64 * pos + p)
  {
    hide Val, Pow, Cleared, P2;
    var n, k := |s|, 64 * pos + p;
    var u := t[n - 1 := t[n - 1] - HALF];
    UpperPart(s, u, pos, p);
    TopRemoved(t, u);
    P2Pow(n);
    PowerAbove(Val(u), k, 64 * n - 1);
    PowerAbove(Val(s), k, 64 * n);
    HalfPower(64 * n);
  }

  lemma TopRemoved(t: seq<limb>, u: seq<limb>)
    requires |t| >= 1 && t[|t| - 1] >= HALF && u == t[|t| - 1 := t[|t| - 1] - HALF]
    ensures Val(t) == Val(u) + P2(64 * |t| - 1)
  {
    hide Val, Pow, P2;
    var n := |t|;
    ValUpdate(t, n - 1, t[n - 1] - HALF);
    MulNeg(HALF, Pow(n - 1));
    P2Pow(n - 1);
    P2Limb();
    P2Add(64 * (n - 1), 63);
    MulSwap(HALF, Pow(n - 1));
  }

  /** Halving the limb at pos keeps the number below the bit. */
  lemma UpperPart(s: seq<limb>, u: seq<limb>, pos: nat, p: nat)
    requires pos < |s| == |u| && p < 64 && s[pos] < P2(p) && u[..pos] == s[..pos] && u[pos] == s[pos] / 2
    requires forall j :: pos < j < |s| ==> u[j] == 0
    ensures Val(u) < P2(64 * pos + p)
  {
    hide Val, Pow;
    var low, h := u[..pos], u[pos + 1..];
    assert u[pos..] == [u[pos]] + h;
    ValSplit(u, pos);
    ValBound(low);
    ValCons(u[pos], h);
    ValZeros(h);
    P2Pow(pos);
    P2Add(64 * pos, p);
    hide P2;
    MulMono(u[pos] + 1, P2(p), Pow(pos));
    MulDist(u[pos], 1, Pow(pos));
    MulSwap(Pow(pos), u[pos]);
    MulSwap(Pow(pos), P2(p));
  }

  lemma PowerAbove(v: nat, k: nat, n: nat)
    requires v < P2(k) && k <= n
    ensures Cleared(v + P2(n), k) == P2(n)
  {
    P2Add(n - k, k);
    hide P2;
    DivModUnique(v + P2(n), P2(k), P2(n - k), v);
  }

  lemma ExcessIs(M: nat, prec: nat, l: nat)
    requires BitLength(M) == 64 * l
    ensures Excess(M, prec) == if 64 * l > prec then 64 * l - prec else 0
  {}

  lemma AddsBit(M: nat, k: nat, neg: bool, mode: Mode)
    requires RoundUp(M, k, neg, mode)
    ensures k > 0
  {}

  lemma PlainCleared(M: nat, k: nat, prec: nat, neg: bool, mode: Mode)
    requires k == Excess(M, prec) && !RoundUp(M, k, neg, mode)
    ensures RoundInt(M, prec, neg, mode) == Cleared(M, k)
  {}

  lemma UpCleared(M: nat, k: nat, prec: nat, neg: bool, mode: Mode)
    requires k == Excess(M, prec) && RoundUp(M, k, neg, mode)
    ensures RoundInt(M, prec, neg, mode) == Cleared(M, k) + P2(k) == Cleared(M + P2(k), k)
  {
    hide P2, RoundUp;
    QuotientNatural(M, P2(k));
    DivModFacts(M, P2(k));
    MulDist(M / P2(k), 1, P2(k));
    DivModUnique(M + P2(k), P2(k), M / P2(k) + 1, M % P2(k));
  }

  // Normalization.

  /** clz */
  function Clz(x: limb): (c: nat)
    ensures c <= 64
  {
    BitLengthIs(x);
    P2Limb();
    LimbLength(x);
    64 - BitLength(x)
  }

  lemma LimbLength(x: limb)
    ensures BitLength(x) <= 64
  {
    P2Limb();
    LengthWithin(x, 64);
  }

  /** Shifted up by its leading zeros, a limb has its top bit set. */
  lemma ClzShift(x: limb)
    requires x > 0
    ensures Clz(x) < 64 && HALF <= x * P2(Clz(x)) < BASE && x / P2(64 - Clz(x)) == 0
  {
    BitLengthIs(x);
    P2Limb();
    var c, b := Clz(x), BitLength(x);
    P2Add(b, c);
    P2Add(b - 1, c);
    hide P2, BitLength;
    MulMono(P2(b - 1), x, P2(c));
    MulMono(x + 1, P2(b), P2(c));
    MulDist(x, 1, P2(c));
    DivModUnique(x, P2(b), 0, x);
  }

  /** Shifts the first l limbs left. */
  method ShiftUp(r: Bf, l: nat, shift: nat)
    requires 1 <= l <= |r.tab| && 0 < shift < 64 && r.tab[l - 1] / P2(64 - shift) == 0
    modifies r`tab
    ensures |r.tab| == old(|r.tab|) && Val(r.tab[..l]) == Mul(Val(old(r.tab[..l])), P2(shift))
  {
    hide Val, Pow, P2, Mul, BitOr, ShiftLeft, ShiftRight;
    ghost var A, Z, tab0 := r.tab[..l], Zeros(l), r.tab;
    ghost var R: seq<limb> := [];
    var v: limb := 0;
    ShiftNothing(64 - shift);
    LinearStart(Z, A, P2(shift), 0);
    var i := 0;
    while i < l
      invariant 0 <= i <= l && |r.tab| == |tab0| && |R| == i && v == if i == 0 then 0 else tab0[i - 1]
      invariant forall j :: i <= j < |tab0| ==> r.tab[j] == tab0[j]
      invariant forall j :: 0 <= j < i ==> r.tab[j] == R[j]
      invariant Linear(R, Z, A, P2(shift), 0, ShiftRight(v, 64 - shift))
    {
      var a := r.tab[i];
      UpLimb(a, v, shift);
      var u: limb := BitOr(ShiftLeft(a, shift), ShiftRight(v, 64 - shift));
      assert A[i] == a;
      ZeroAt(Z, i);
      LinearStep(R, Z, A, P2(shift), 0, ShiftRight(v, 64 - shift), u, ShiftRight(a, 64 - shift));
      r.tab := r.tab[i := u];
      R := R + [u];
      v := a;
      i := i + 1;
    }
    LinearDone(R, Z, A, P2(shift), 0, ShiftRight(v, 64 - shift));
    LastShift(v, shift);
    MulUnit(Pow(l));
    MulSwap(P2(shift), Val(A));
    assert r.tab[..l] == R;
  }

  lemma LastShift(v: limb, shift: nat)
    requires shift < 64 && v / P2(64 - shift) == 0
    ensures ShiftRight(v, 64 - shift) == 0
  {}

  lemma ShiftNothing(s: nat)
    ensures ShiftRight(0, s) == 0
  {
    DivModUnique(0, P2(s), 0, 0);
  }

  lemma ZeroAt(z: seq<limb>, i: nat)
    requires i < |z| && Val(z) == 0
    ensures z[i] == 0
  {
    ValZeros(z);
  }

  lemma UpLimb(a: limb, v: limb, shift: nat)
    requires 0 < shift < 64
    ensures BitOr(ShiftLeft(a, shift), ShiftRight(v, 64 - shift)) < BASE && ShiftRight(a, 64 - shift) < BASE
    ensures P2(shift) * a + ShiftRight(v, 64 - shift)
         == BitOr(ShiftLeft(a, shift), ShiftRight(v, 64 - shift)) + ShiftRight(a, 64 - shift) * BASE
  {
    hide BitOr, P2;
    ShiftedVal(a, shift);
    OrShifted(v, a, 64 - shift);
    OrSwap(ShiftLeft(a, shift), ShiftRight(v, 64 - shift));
  }

  lemma SameScale(n: nat, j: nat, e: int, n': nat, e': int)
    requires Same(Mul(n, P2(j)), e - j, n', e')
    ensures Same(n, e, n', e')
  {
    hide P2;
    if e <= e' {
      P2Add(e' - e, j);
      ScaleUpper(n, n', P2(e' - e), P2(j), P2(e' - (e - j)));
    } else if e - j <= e' {
      P2Add(e - e', j - (e - e'));
      ScaleMiddle(n, n', P2(e - e'), P2(j - (e - e')), P2(j));
    } else {
      P2Add(j, e - j - e');
      MulAssoc(n, P2(j), P2(e - j - e'));
    }
  }

  lemma ScaleUpper(n: int, n': int, p: int, q: int, pq: int)
    requires pq == p * q && Mul(n, q) == n' * pq && q > 0
    ensures n == n' * p
  {
    MulAssoc(n', p, q);
    CancelFactor(n, n' * p, q);
  }

  lemma ScaleMiddle(n: int, n': int, p: int, q: int, pq: int)
    requires pq == p * q && Mul(n, pq) == n' * q && q > 0
    ensures n' == n * p
  {
    MulAssoc(n, p, q);
    CancelFactor(n * p, n', q);
  }

  lemma CancelFactor(x: int, y: int, p: int)
    requires x * p == y * p && p > 0
    ensures x == y
  {
    if x < y {
      MulMono(x + 1, y, p);
      MulDist(x, 1, p);
    } else if y < x {
      MulMono(y + 1, x, p);
      MulDist(y, 1, p);
    }
  }

  lemma ScaleRounded(n: nat, j: nat, e: int, prec: nat, neg: bool, mode: Mode, n': nat, e': int, inexact: bool)
    requires Mul(n, P2(j)) >= 0 && Rounded(Mul(n, P2(j)), e - j, prec, neg, mode, n', e', inexact)
    ensures Rounded(n, e, prec, neg, mode, n', e', inexact)
  {
    hide P2, RoundInt, Same;
    RoundIntScale(n, j, prec, neg, mode);
    SameScale(RoundInt(n, prec, neg, mode), j, e, n', e');
    if Mul(RoundInt(n, prec, neg, mode), P2(j)) == Mul(n, P2(j)) {
      CancelFactor(RoundInt(n, prec, neg, mode), n, P2(j));
    }
  }

  /** bf_normalize_and_round */
  method BfNormalizeAndRound(r: Bf, prec: nat, mode: Mode) returns (inexact: bool)
    requires prec >= 1 && (r.tab != [] ==> r.Unit() > EXP_ZERO + 64)
    modifies r
    ensures r.sign == old(r.sign)
    ensures old(Val(r.tab)) == 0 ==> r.Zero() && !inexact
    ensures old(Val(r.tab)) > 0 ==>
      r.Normal() && Rounded(old(Val(r.tab)), old(r.Unit()), prec, r.sign, mode, Val(r.tab), r.Unit(), inexact)
  {
    hide Val, Pow, P2, Mul, Rounded, BitLength;
    var l := |r.tab|;
    ghost var M, e := Val(r.tab), r.Unit();
    while l > 0 && r.tab[l - 1] == 0
      invariant 0 <= l <= |r.tab| && r.tab == old(r.tab) && r.expn == old(r.expn) && r.sign == old(r.sign)
      invariant forall j :: l <= j < |r.tab| ==> r.tab[j] == 0
    {
      l := l - 1;
    }
    UpperZeros(r.tab, l);
    if l == 0 {
      ValZeros(r.tab);
      r.expn, r.tab := EXP_ZERO, [];
      return false;
    }
    r.expn := r.expn - (|r.tab| - l) * 64;
    var shift := Clz(r.tab[l - 1]);
    ClzShift(r.tab[l - 1]);
    ghost var t := r.tab[..l];
    TopPositive(t);
    if shift != 0 {
      ShiftUp(r, l, shift);
      r.expn := r.expn - shift;
      ShiftedTop(t, r.tab[..l], shift);
    } else {
      assert P2(0) == 1 by { PowerZero(0); }
      MulUnit(M);
    }
    inexact := BfRound(r, prec, mode, l);
    ScaleRounded(M, shift, e, prec, r.sign, mode, Val(r.tab), r.Unit(), inexact);
  }

  lemma UpperZeros(s: seq<limb>, l: nat)
    requires l <= |s| && forall j :: l <= j < |s| ==> s[j] == 0
    ensures Val(s) == Val(s[..l])
  {
    hide Val, Pow;
    ValSplit(s, l);
    ValZeros(s[l..]);
    MulUnit(Pow(l));
  }

  lemma TopPositive(t: seq<limb>)
    requires |t| >= 1 && t[|t| - 1] > 0
    ensures Val(t) > 0
  {
    ValZeros(t);
  }

  lemma ShiftedTop(s: seq<limb>, t: seq<limb>, shift: nat)
    requires |s| == |t| >= 1 && s[|s| - 1] > 0 && shift == Clz(s[|s| - 1]) && Val(t) == Mul(Val(s), P2(shift))
    ensures t[|t| - 1] >= HALF
  {
    hide Val, Pow, P2, Clz;
    var n := |s|;
    ClzShift(s[n - 1]);
    ValTop(s);
    P2Pow(n - 1);
    P2Limb();
    P2Add(64 * (n - 1), 63);
    TopNumbers(s[n - 1], Pow(n - 1), P2(shift), Val(s));
    MulSwap(Pow(n - 1), HALF);
    LengthTop(t);
  }

  lemma TopNumbers(x: nat, b: nat, p: nat, v: nat)
    requires Mul(x, b) <= v && x * p >= HALF && p >= 1
    ensures v * p >= Mul(HALF, b)
  {
    MulMono(x * b, v, p);
    assert x * b * p == x * p * b;
    MulMono(HALF, x * p, b);
  }
}
