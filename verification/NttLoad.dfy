/** limb_to_ntt: a number cut into digits of dpl bits, each reduced by every modulus. */
module NttLoad {
  import opened Limbs
  import opened Bits
  import opened BitFields
  import opened Congruence
  import opened NttRoots
  import opened NttField
  import opened NttStage
  import opened NttColumns
  import opened NttInverse
  import opened NttTransform

  /** LIMB_BITS + NTT_MOD_LOG2_MIN: digits up to this size are reduced in one step. */
  const DPL_SHORT := 125
  const DPL_MAX := 188

  /** Digit i in base 2^dpl. */
  ghost function Digit(v: nat, dpl: nat, i: nat): int {
    (v / P2(i * dpl)) % P2(dpl)
  }

  /** Splitting a remainder. */
  lemma ModSplit(w: nat, b: nat, c: nat)
    requires b >= 1 && c >= 1
    ensures b * c >= 1 && w % (b * c) == w % b + b * ((w / b) % c)
  {
    MulMono(1, c, b);
    var q, r := w / b, w % b;
    var q', r' := q / c, q % c;
    assert w == q * b + r && q == q' * c + r';
    assert w == q' * (b * c) + (r' * b + r) by {
      MulDist(q' * c, r', b);
      assert q' * c * b == q' * (b * c);
    }
    MulMono(r' + 1, c, b);
    MulDist(r', 1, b);
    MulMono(0, r', b);
    DivModUnique(w, b * c, q', r' * b + r);
  }

  lemma ModMod(w: nat, s: nat)
    requires s <= 64
    ensures (w % BASE) % P2(s) == w % P2(s)
  {
    P2Split(s);
    ModSplit(w, P2(s), P2(64 - s));
    var x, h := P2(s), (w / P2(s)) % P2(64 - s);
    assert w % BASE == h * x + w % x by { assert x * h == h * x; }
    DivModUnique(w % BASE, x, h, w % x);
  }

  /** base_mask1 */
  function BaseMask(dpl: nat): limb {
    P2Limb();
    P2Small(dpl % 64);
    if dpl % 64 == 0 then BASE - 1 else P2(dpl % 64) - 1
  }

  lemma P2Small(s: nat)
    requires s < 64
    ensures P2(s) < BASE
  {
    P2Split(s);
    assert P2(64 - s) == 2 * P2(63 - s);
    MulMono(2, P2(64 - s), P2(s));
  }

  /** Masking keeps the bits of the last limb of a digit. */
  lemma MaskIs(x: limb, dpl: nat)
    ensures BitAnd(x, BaseMask(dpl)) == x % P2(if dpl % 64 == 0 then 64 else dpl % 64) < BASE
  {
    P2Limb();
    P2Small(dpl % 64);
    if dpl % 64 == 0 {
      AndMask(x, 64);
    } else {
      AndMask(x, dpl % 64);
      RemainderSmall(x, P2(dpl % 64));
    }
  }

  lemma RemainderSmall(x: nat, d: nat)
    requires d >= 1
    ensures 0 <= x % d <= x
  {
    ModSplit(x, d, 1);
    assert x == (x / d) * d + x % d;
    MulMono(0, x / d, d);
  }

  lemma NextLimb(v: nat, pos: nat)
    ensures v / P2(pos + 64) == (v / P2(pos)) / BASE
  {
    P2Limb();
    P2Add(pos, 64);
    DivDiv(v, P2(pos), BASE);
  }

  /** The digit from its limbs. */
  lemma DigitShort(w: nat, dpl: nat)
    requires 1 <= dpl <= 64
    ensures w % P2(dpl) == (w % BASE) % P2(dpl)
  {
    ModMod(w, dpl);
  }

  lemma DigitMiddle(w: nat, dpl: nat)
    requires 64 < dpl <= 128
    ensures w % P2(dpl) == w % BASE + BASE * (((w / BASE) % BASE) % P2(dpl - 64))
  {
    P2Limb();
    hide P2;
    P2Add(64, dpl - 64);
    ModSplit(w, BASE, P2(dpl - 64));
    ModMod(w / BASE, dpl - 64);
  }

  lemma DigitLong(w: nat, dpl: nat)
    requires 128 < dpl <= 192
    ensures w % P2(dpl)
         == w % BASE + BASE * ((w / BASE) % BASE + BASE * ((((w / BASE) / BASE) % BASE) % P2(dpl - 128)))
  {
    P2Limb();
    hide P2;
    P2Add(64, dpl - 64);
    P2Add(64, dpl - 128);
    ModSplit(w, BASE, P2(dpl - 64));
    ModSplit(w / BASE, BASE, P2(dpl - 128));
    ModMod((w / BASE) / BASE, dpl - 128);
  }

  /** The 128-bit value that is reduced first, and the rest of the digit. */
  lemma TopPart(a0: limb, a1: limb, a2: limb, d: nat)
    requires d == a0 + BASE * (a1 + BASE * a2)
    ensures BitOr(BitOr(a0 / HALF, a1 * 2), a2 * (2 * BASE)) == d / HALF && BitAnd(a0, HALF - 1) == d % HALF
  {
    P2Limb();
    assert P2(1) == 2 && P2(65) == 2 * BASE;
    var x := a0 / HALF;
    OrDisjoint(x, a1 * 2, 1);
    DivModUnique(a2 * (2 * BASE), 2 * BASE, a2, 0);
    OrDisjoint(x + a1 * 2, a2 * (2 * BASE), 65);
    AndMask(a0, 63);
    DivModUnique(d, HALF, x + 2 * a1 + 2 * BASE * a2, a0 % HALF);
  }

  /** Upper and lower part of the digit at pos: up to 125 bits go into a, beyond that a0 keeps 63 bits. */
  ghost predicate PartsOk(d: int, dpl: nat, a: int, a0: int) {
    && 0 <= a < REDUCIBLE
    && if dpl <= DPL_SHORT then a == d else 0 <= a0 < HALF && d == a * HALF + a0
  }

  lemma P2Monotone(i: nat, j: nat)
    requires i <= j
    ensures P2(i) <= P2(j)
  {
    P2Add(i, j - i);
    MulMono(1, P2(j - i), P2(i));
  }

  lemma P2Bounds()
    ensures P2(DPL_SHORT) == REDUCIBLE && P2(DPL_MAX) == REDUCIBLE * HALF
  {
    P2Limb();
    P2Add(64, 61);
    assert P2(63) == 2 * P2(62) && P2(62) == 2 * P2(61);
    P2Add(125, 63);
  }

  lemma RemainderBound(w: nat, d: nat)
    requires d >= 1
    ensures 0 <= w % d < d
  {}

  lemma DigitBound(w: nat, dpl: nat)
    requires dpl <= DPL_MAX
    ensures 0 <= w % P2(dpl) && (dpl <= DPL_SHORT ==> w % P2(dpl) < REDUCIBLE) && w % P2(dpl) < REDUCIBLE * HALF
  {
    P2Bounds();
    P2Monotone(dpl, DPL_MAX);
    if dpl <= DPL_SHORT {
      P2Monotone(dpl, DPL_SHORT);
    }
    hide P2;
    RemainderBound(w, P2(dpl));
  }

  lemma HalvesOk(d: nat, dpl: nat)
    requires d < REDUCIBLE * HALF && dpl > DPL_SHORT
    ensures PartsOk(d, dpl, d / HALF, d % HALF)
  {}

  method DigitParts(tab: array<limb>, o: nat, len: nat, pos: nat, dpl: nat) returns (a: int, a0: limb)
    requires o + len <= tab.Length && 1 <= dpl <= DPL_MAX
    ensures PartsOk((Val(tab[o..o + len]) / P2(pos)) % P2(dpl), dpl, a, a0)
  {
    hide Val, P2, BitOr, BitAnd, BaseMask, PartsOk;
    ghost var v := Val(tab[o..o + len]);
    QuotientNatural(v, P2(pos));
    ghost var w := v / P2(pos);
    a0 := GetBits(tab, o, len, pos);
    if dpl <= 64 {
      MaskIs(a0, dpl);
      a0 := BitAnd(a0, BaseMask(dpl));
      a := a0;
      ShortParts(w, dpl, a, a0);
    } else {
      var a1 := GetBits(tab, o, len, pos + 64);
      NextLimb(v, pos);
      MaskIs(a1, dpl);
      if dpl <= DPL_SHORT {
        OrWide(a0, BitAnd(a1, BaseMask(dpl)));
        a := BitOr(a0, BitAnd(a1, BaseMask(dpl)) * BASE);
        MiddleParts(w, dpl, a, a0);
      } else {
        a, a0 := LongParts(tab, o, len, pos, dpl, a0, a1, w);
      }
    }
  }

  lemma ShortParts(w: nat, dpl: nat, a: int, a0: int)
    requires 1 <= dpl <= 64 && a == (w % BASE) % P2(dpl)
    ensures PartsOk(w % P2(dpl), dpl, a, a0)
  {
    hide P2;
    DigitShort(w, dpl);
    DigitBound(w, dpl);
  }

  lemma MiddleParts(w: nat, dpl: nat, a: int, a0: int)
    requires 64 < dpl <= DPL_SHORT && a == w % BASE + (((w / BASE) % BASE) % P2(dpl % 64)) * BASE
    ensures PartsOk(w % P2(dpl), dpl, a, a0)
  {
    hide P2;
    DigitMiddle(w, dpl);
    DigitBound(w, dpl);
  }

  /** Digits of more than 125 bits take up to three limbs. */
  method LongParts(tab: array<limb>, o: nat, len: nat, pos: nat, dpl: nat, b0: limb, b1: limb, ghost w: nat)
    returns (a: int, a0: limb)
    requires o + len <= tab.Length && DPL_SHORT < dpl <= DPL_MAX && w == Val(tab[o..o + len]) / P2(pos)
    requires b0 == w % BASE && b1 == (w / BASE) % BASE
    ensures PartsOk(w % P2(dpl), dpl, a, a0)
  {
    hide Val, P2, BitOr, BitAnd, BaseMask, PartsOk;
    var a1: limb, a2: limb := b1, 0;
    if dpl > 128 {
      a2 := ThirdLimb(tab, o, len, pos, dpl, w);
      DigitLong(w, dpl);
    } else {
      MaskIs(a1, dpl);
      a1 := BitAnd(a1, BaseMask(dpl));
      DigitMiddle(w, dpl);
      assert dpl % 64 == 0 ==> dpl == 128;
    }
    LongFits(b0);
    LongPartsOk(b0, a1, a2, w, dpl);
    a := BitOr(BitOr(b0 / HALF, a1 * 2), a2 * (2 * BASE));
    a0 := BitAnd(b0, HALF - 1);
  }

  lemma LongFits(b0: limb)
    ensures BitAnd(b0, HALF - 1) < BASE
  {
    P2Limb();
    AndMask(b0, 63);
  }

  lemma LongPartsOk(b0: limb, a1: limb, a2: limb, w: nat, dpl: nat)
    requires DPL_SHORT < dpl <= DPL_MAX && w % P2(dpl) == b0 + BASE * (a1 + BASE * a2)
    ensures PartsOk(w % P2(dpl), dpl, BitOr(BitOr(b0 / HALF, a1 * 2), a2 * (2 * BASE)), BitAnd(b0, HALF - 1))
  {
    hide P2, BitOr, BitAnd, PartsOk;
    DigitBound(w, dpl);
    TopPart(b0, a1, a2, w % P2(dpl));
    HalvesOk(w % P2(dpl), dpl);
  }

  /** The masked third limb of a digit of more than 128 bits. */
  method ThirdLimb(tab: array<limb>, o: nat, len: nat, pos: nat, dpl: nat, ghost w: nat) returns (a2: limb)
    requires o + len <= tab.Length && 128 < dpl <= DPL_MAX && w == Val(tab[o..o + len]) / P2(pos)
    ensures a2 == (((w / BASE) / BASE) % BASE) % P2(dpl - 128)
  {
    hide Val, P2, BitOr, BitAnd, BaseMask;
    NextLimb(Val(tab[o..o + len]), pos);
    NextLimb(Val(tab[o..o + len]), pos + 64);
    a2 := GetBits(tab, o, len, pos + 128);
    MaskIs(a2, dpl);
    a2 := BitAnd(a2, BaseMask(dpl));
  }

  lemma OrWide(a0: limb, b: limb)
    ensures BitOr(a0, b * BASE) == a0 + b * BASE
  {
    P2Limb();
    DivModUnique(b * BASE, BASE, b, 0);
    OrDisjoint(a0, b * BASE, 64);
  }

  /** The residue of a digit. */
  method ReduceDigit(a: int, a0: limb, dpl: nat, f: Field, ghost d: int) returns (r: limb)
    requires PartsOk(d, dpl, a, a0) && BarrettOk(f.m, f.mInv)
    ensures r < f.m && Cong(r, d, f.m)
  {
    hide Cong, BarrettOk, BitOr;
    BarrettModulus(f.m, f.mInv);
    r := ModFast(a, f.m, f.mInv);
    if dpl > DPL_SHORT {
      OrLower(r, a0);
      var b := BitOr(r * HALF, a0);
      ghost var r0: int := r;
      r := ModFast(b, f.m, f.mInv);
      TwoSteps(r, r0, a, a0, d, f.m);
    }
  }

  lemma OrLower(r: limb, a0: limb)
    requires a0 < HALF && r < MOD_MAX
    ensures BitOr(r * HALF, a0) == r * HALF + a0 < REDUCIBLE
  {
    P2Limb();
    DivModUnique(r * HALF, HALF, r, 0);
    OrDisjoint(a0, r * HALF, 63);
    OrSwap(r * HALF, a0);
  }

  lemma {:induction false} OrSwap(a: nat, b: nat)
    ensures BitOr(a, b) == BitOr(b, a)
    decreases a + b
  {
    if a != 0 || b != 0 {
      OrSwap(a / 2, b / 2);
    }
  }

  lemma TwoSteps(r: int, r0: int, a: int, a0: int, d: int, m: int)
    requires Cong(r, r0 * HALF + a0, m) && Cong(r0, a, m) && d == a * HALF + a0
    ensures Cong(r, d, m)
  {
    CongMul(r0, a, HALF, HALF, m);
    CongAdd(r0 * HALF, a * HALF, a0, a0, m);
  }

  // The whole number.

  ghost predicate FieldsOk(fs: seq<Field>) {
    forall j :: 0 <= j < |fs| ==> FieldOk(fs[j])
  }

  /** Cell (j, k) of the buffer once k columns are loaded, and of column i the rows before l: the residue of
      digit k by modulus j, or still zero. */
  ghost predicate LoadAt(t: seq<limb>, fs: seq<Field>, v: nat, dpl: nat, fftLen: nat, i: nat, l: nat, j: nat, k: nat)
    requires j < |fs|
  {
    var x := AtLimb(t, Area(j, fftLen) + k);
    if k < i || (k == i && j < l) then x < fs[j].m && Cong(x, Digit(v, dpl, k), fs[j].m) else x == 0
  }

  ghost predicate Loaded(t: seq<limb>, fs: seq<Field>, v: nat, dpl: nat, fftLen: nat, i: nat, l: nat) {
    forall j: nat, k: nat | j < |fs| && k < fftLen :: LoadAt(t, fs, v, dpl, fftLen, i, l, j, k)
  }

  lemma LoadStep(t: seq<limb>, t': seq<limb>, fs: seq<Field>, v: nat, dpl: nat, fftLen: nat, i: nat, l: nat, r: limb)
    requires Loaded(t, fs, v, dpl, fftLen, i, l) && l < |fs| && i < fftLen && Area(l, fftLen) + i < |t|
    requires t' == t[Area(l, fftLen) + i := r] && r < fs[l].m && Cong(r, Digit(v, dpl, i), fs[l].m)
    ensures Loaded(t', fs, v, dpl, fftLen, i, l + 1)
  {
    hide Area, Cong, Digit;
    var l' := l + 1;
    forall j: nat, k: nat | j < |fs| && k < fftLen
      ensures LoadAt(t', fs, v, dpl, fftLen, i, l', j, k)
    {
      assert LoadAt(t, fs, v, dpl, fftLen, i, l, j, k);
      if j != l || k != i {
        CellsDiffer(j, k, l, i, fftLen);
      }
    }
  }

  lemma LoadColumn(t: seq<limb>, fs: seq<Field>, v: nat, dpl: nat, fftLen: nat, i: nat)
    requires Loaded(t, fs, v, dpl, fftLen, i, |fs|)
    ensures Loaded(t, fs, v, dpl, fftLen, i + 1, 0)
  {
    hide Area, Cong, Digit;
    var i' := i + 1;
    forall j: nat, k: nat | j < |fs| && k < fftLen
      ensures LoadAt(t, fs, v, dpl, fftLen, i', 0, j, k)
    {
      assert LoadAt(t, fs, v, dpl, fftLen, i, |fs|, j, k);
    }
  }

  lemma LoadStart(t: seq<limb>, fs: seq<Field>, v: nat, dpl: nat, fftLen: nat)
    requires forall x :: 0 <= x < |t| ==> t[x] == 0
    ensures Loaded(t, fs, v, dpl, fftLen, 0, 0)
  {
    hide Area, Cong, Digit;
  }

  /** ceil(len * LIMB_BITS / dpl) */
  function DigitCount(len: nat, dpl: nat): nat
    requires dpl >= 1
  {
    QuotientNatural(len * 64 + dpl - 1, dpl);
    (len * 64 + dpl - 1) / dpl
  }

  function Min(a: nat, b: nat): nat {
    if a < b then a else b
  }

  method LimbToNtt(tabr: array<limb>, fftLen: nat, tab: array<limb>, o: nat, len: nat, dpl: nat, fs: seq<Field>)
    requires tabr != tab && tabr.Length == Area(|fs|, fftLen) && o + len <= tab.Length && 1 <= dpl <= DPL_MAX
             && FieldsOk(fs)
    modifies tabr
    ensures Loaded(tabr[..], fs, Val(tab[o..o + len]), dpl, fftLen, Min(fftLen, DigitCount(len, dpl)), 0)
  {
    hide Area, Cong, Val, Loaded, PartsOk, DirectionOk, LengthsOk, BarrettOk, P2, DigitCount;
    ghost var s := tab[o..o + len];
    ghost var v := Val(s);
    forall x | 0 <= x < tabr.Length {
      tabr[x] := 0;
    }
    LoadStart(tabr[..], fs, v, dpl, fftLen);
    var n := Min(fftLen, DigitCount(len, dpl));
    var i, pos := 0, 0;
    while i < n
      invariant 0 <= i <= n && pos == i * dpl && tab[o..o + len] == s
      invariant Loaded(tabr[..], fs, v, dpl, fftLen, i, 0)
    {
      var a, a0 := DigitParts(tab, o, len, pos, dpl);
      var j, row := 0, 0;
      AreaZero(fftLen);
      while j < |fs|
        invariant 0 <= j <= |fs| && row == Area(j, fftLen) && tab[o..o + len] == s
        invariant Loaded(tabr[..], fs, v, dpl, fftLen, i, j)
      {
        assert FieldOk(fs[j]);
        CellBound(j, |fs|, i, fftLen);
        var r := ReduceDigit(a, a0, dpl, fs[j], Digit(v, dpl, i));
        ghost var t: seq<limb> := tabr[..];
        tabr[row + i] := r;
        assert tabr[..] == t[row + i := r];
        LoadStep(t, tabr[..], fs, v, dpl, fftLen, i, j, r);
        AreaNext(j, fftLen);
        row := row + fftLen;
        j := j + 1;
      }
      LoadColumn(tabr[..], fs, v, dpl, fftLen, i);
      NextPosition(i, dpl);
      pos := pos + dpl;
      i := i + 1;
    }
  }

  lemma NextPosition(i: nat, dpl: nat)
    ensures (i + 1) * dpl == i * dpl + dpl
  {}

  /** The residues of one modulus: the digits, then zeros. */
  ghost function Digits(v: nat, dpl: nat, n: nat, fftLen: nat): (d: seq<int>)
    ensures |d| == fftLen
  {
    seq(fftLen, i requires 0 <= i < fftLen => if i < n then Digit(v, dpl, i) else 0)
  }

  ghost predicate Residues(t: seq<limb>, d: seq<int>, m: int) {
    |t| == |d| && forall i :: 0 <= i < |t| ==> t[i] < m && Cong(t[i], d[i], m)
  }

  lemma LoadedRow(t: seq<limb>, fs: seq<Field>, v: nat, dpl: nat, fftLen: nat, n: nat, j: nat)
    requires Loaded(t, fs, v, dpl, fftLen, n, 0) && j < |fs| && FieldOk(fs[j]) && |t| == Area(|fs|, fftLen)
    ensures Area(j, fftLen) + fftLen <= |t|
    ensures Residues(t[Area(j, fftLen)..Area(j, fftLen) + fftLen], Digits(v, dpl, n, fftLen), fs[j].m)
  {
    AreaRoom(j, |fs|, fftLen);
    hide Area, Digit, DirectionOk, LengthsOk;
    BarrettModulus(fs[j].m, fs[j].mInv);
    var s := t[Area(j, fftLen)..Area(j, fftLen) + fftLen];
    forall i | 0 <= i < fftLen
      ensures s[i] < fs[j].m && Cong(s[i], Digits(v, dpl, n, fftLen)[i], fs[j].m)
    {
      assert LoadAt(t, fs, v, dpl, fftLen, n, 0, j, i);
    }
  }

  // A number is the sum of its digits.

  /** The digits in base X. */
  ghost function BaseDigits(v: nat, X: nat, n: nat): (d: seq<int>)
    requires X >= 1
    ensures |d| == n
    decreases n
  {
    if n == 0 then [] else QuotientNatural(v, X); [v % X] + BaseDigits(v / X, X, n - 1)
  }

  lemma {:induction false} BaseDigitsEval(v: nat, X: nat, n: nat)
    requires X >= 1 && v < Power(X, n)
    ensures Eval(BaseDigits(v, X, n), X) == v
    decreases n
  {
    if n > 0 {
      QuotientNatural(v, X);
      var q := v / X;
      assert v == q * X + v % X;
      if q >= Power(X, n - 1) {
        MulMono(Power(X, n - 1), q, X);
      }
      BaseDigitsEval(q, X, n - 1);
      assert BaseDigits(v, X, n)[1..] == BaseDigits(q, X, n - 1);
      assert X * q == q * X;
    }
  }

  lemma {:induction false} P2Power(dpl: nat, i: nat)
    ensures P2(i * dpl) == Power(P2(dpl), i)
  {
    if i > 0 {
      P2Power(dpl, i - 1);
      NextPosition(i - 1, dpl);
      P2Add((i - 1) * dpl, dpl);
      assert P2((i - 1) * dpl) * P2(dpl) == P2(dpl) * P2((i - 1) * dpl);
    }
  }

  lemma {:induction false} BaseDigitAt(v: nat, dpl: nat, n: nat, i: nat)
    requires i < n
    ensures BaseDigits(v, P2(dpl), n)[i] == Digit(v, dpl, i)
    decreases i
  {
    hide P2;
    var X := P2(dpl);
    QuotientNatural(v, X);
    if i == 0 {
      assert P2(0 * dpl) == 1 by { P2Zero(dpl); }
    } else {
      BaseDigitAt(v / X, dpl, n - 1, i - 1);
      NextPosition(i - 1, dpl);
      P2Add(dpl, (i - 1) * dpl);
      DivDiv(v, X, P2((i - 1) * dpl));
    }
  }

  lemma P2Zero(dpl: nat)
    ensures P2(0 * dpl) == 1
  {
    assert P2(0) == 1;
  }

  /** The digits of a number, padded with zeros, evaluate to it. */
  lemma DigitsEval(v: nat, dpl: nat, n: nat, fftLen: nat)
    requires dpl >= 1 && n <= fftLen && v < P2(n * dpl)
    ensures Eval(Digits(v, dpl, n, fftLen), P2(dpl)) == v
  {
    hide P2, Digit;
    var X, d := P2(dpl), BaseDigits(v, P2(dpl), n);
    P2Power(dpl, n);
    BaseDigitsEval(v, X, n);
    var z := seq(fftLen - n, i => 0);
    forall i | 0 <= i < n
      ensures d[i] == Digit(v, dpl, i)
    {
      BaseDigitAt(v, dpl, n, i);
    }
    assert Digits(v, dpl, n, fftLen) == d + z;
    EvalConcat(d, z, X);
    ZeroEval(fftLen - n, X);
  }
}
