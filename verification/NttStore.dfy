/** ntt_to_limb: from residues back to the limbs of the number. */
module NttStore {
  import opened Limbs
  import opened LimbArith
  import opened Bits
  import opened BitFields
  import opened Congruence
  import opened NttRoots
  import opened NttStage
  import opened NttColumns
  import opened NttTransform
  import opened NttLoad
  import opened NttGarner

  // Back to normal representation.

  /** Moduli below BASE / 2: twice their product has no more limbs than there are moduli. */
  lemma {:induction false} ProductFits(ms: seq<int>)
    requires |ms| >= 1 && forall i :: 0 <= i < |ms| ==> 0 < ms[i] <= HALF
    ensures 0 < 2 * Product(ms) <= Pow(|ms|)
    decreases |ms|
  {
    var m, rest := ms[0], ms[1..];
    if |ms| == 1 {
      assert Product(rest) == 1 && Pow(1) == BASE by { assert Pow(0) == 1; }
      assert m * 1 == m;
    } else {
      ProductFits(rest);
      var p, q := Product(rest), Pow(|rest|);
      MulMono(1, m, p);
      assert p * m == m * p;
      MulMono(m, HALF, p);
      MulMono(2 * p, q, HALF);
    }
  }

  lemma MixedUnfold(y: seq<int>, ms: seq<int>, j: nat)
    requires |y| == |ms| && j < |y|
    ensures Mixed(y[j..], ms[j..]) == y[j] + Mul(ms[j], Mixed(y[j + 1..], ms[j + 1..]))
  {
    assert y[j..][1..] == y[j + 1..] && ms[j..][1..] == ms[j + 1..];
  }

  lemma MixedTop(y: seq<int>, ms: seq<int>, j: nat)
    requires |y| == |ms| && j + 1 == |y|
    ensures Mixed(y[j..], ms[j..]) == y[j]
  {
    MixedUnfold(y, ms, j);
    assert y[j + 1..] == [] && Mixed([], ms[j + 1..]) == 0;
  }

  /** u = u * m + r + carry, the last step of the conversion; returns the high limb. */
  method MulCarry(u: array<limb>, carry: array<limb>, n: nat, m: limb, r0: limb) returns (r: limb)
    requires u != carry && n <= u.Length && n <= carry.Length
    modifies u
    ensures Val(u[..n]) + Mul(r, Pow(n)) == Val(carry[..n]) + Mul(m, old(Val(u[..n]))) + r0
  {
    hide Mul, Val, Pow;
    ghost var A, C := u[..n], carry[..n];
    ghost var R: seq<limb> := [];
    r := r0;
    LinearStart(C, A, m, r0);
    var k := 0;
    while k < n
      invariant 0 <= k <= n && carry[..n] == C
      invariant forall j :: k <= j < n ==> u[j] == A[j]
      invariant |R| == k && forall j :: 0 <= j < k ==> u[j] == R[j]
      invariant Linear(R, C, A, m, r0, r)
    {
      assert carry[k] == C[k];
      var s, r' := MulAddLimb(u[k], m, r, carry[k]);
      MulAddIs(C[k], m, A[k], r, s, r');
      LinearStep(R, C, A, m, r0, r, s, r');
      u[k] := s;
      R := R + [s];
      r := r';
      k := k + 1;
    }
    assert u[..n] == R;
    LinearDone(R, C, A, m, r0, r);
  }

  lemma MulAddIs(c: int, m: int, a: int, r: int, s: int, r': int)
    requires a * m + r + c == s + r' * BASE
    ensures c + m * a + r == s + r' * BASE
  {}

  lemma TopLimb(v: int, low: int, r: int, c: int, n: nat, carryLow: int, x: int)
    requires low + Mul(r, Pow(n)) == carryLow + x && v == carryLow + Mul(c, Pow(n)) + x && 0 <= low && 0 <= r && 0 <= c
    requires v < Pow(n + 1)
    ensures low + Mul(r + c, Pow(n)) == v && 0 <= r + c < BASE
  {
    MulDist(r, c, Pow(n));
    if r + c >= BASE {
      MulMono(BASE, r + c, Pow(n));
    }
  }

  /** The number with the mixed radix digits y, plus the carry. */
  method FromMixed(y: array<limb>, nb: nat, u: array<limb>, carry: array<limb>)
    requires 2 <= nb <= NB_MODS && y.Length == u.Length == carry.Length == NB_MODS && u != y && u != carry
    requires 0 <= Mixed(y[..nb], Moduli(nb)) + Val(carry[..nb]) < Pow(nb)
    modifies u
    ensures Val(u[..nb]) == Mixed(y[..nb], Moduli(nb)) + Val(carry[..nb])
  {
    hide Mul, Val, Pow, Mixed, Moduli, MODS;
    ghost var ms, Y: seq<int> := Moduli(nb), y[..nb];
    u[0] := y[nb - 1];
    ValOne(u[..1]);
    MixedTop(Y, ms, nb - 1);
    var l, j := 1, nb - 2;
    while j >= 1
      invariant 0 <= j <= nb - 2 && l == nb - 1 - j && y[..nb] == Y
      invariant Val(u[..l]) == Mixed(Y[j + 1..], ms[j + 1..])
    {
      var m := ModulusAt(nb, j);
      assert y[j] == Y[j];
      var r := MpMul1(u, 0, u, 0, l, m, y[j]);
      u[l] := r;
      assert u[..l + 1] == u[..l] + [r];
      ValSnoc(u[..l], r);
      MixedUnfold(Y, ms, j);
      l := l + 1;
      j := j - 1;
    }
    var m := ModulusAt(nb, 0);
    assert y[0] == Y[0] && Y[0..] == Y && ms[0..] == ms;
    MixedUnfold(Y, ms, 0);
    ghost var c := carry[..nb];
    ValSnoc(c[..l], c[l]);
    assert c == c[..l] + [c[l]] && carry[..l] == c[..l];
    var r := MulCarry(u, carry, l, m, y[0]);
    TopLimb(Mixed(Y, ms) + Val(c), Val(u[..l]), r, c[l], l, Val(c[..l]), Mul(m, Mixed(Y[1..], ms[1..])) + Y[0]);
    u[l] := (r + carry[l]) % BASE;
    assert u[..nb] == u[..l] + [u[l]];
    ValSnoc(u[..l], u[l]);
  }

  method ModulusAt(nb: nat, j: nat) returns (m: limb)
    requires j < nb <= NB_MODS
    ensures m == Moduli(nb)[j]
  {
    ModuliOk(nb, j);
    m := MODS[NB_MODS - nb + j];
  }

  // Writing a digit.

  lemma ModAdd(a: nat, b: nat, n: nat)
    requires n >= 1
    ensures (a % n + b) % n == (a + b) % n
  {
    var q, r := a / n, a % n;
    var q', r' := (r + b) / n, (r + b) % n;
    assert a == q * n + r && r + b == q' * n + r';
    MulDist(q, q', n);
    DivModUnique(a + b, n, q + q', r');
  }

  /** The digit U % 2^dpl from the limbs of U. */
  lemma DigitLimbs(u: seq<limb>, dpl: nat, n1: nat, s: nat)
    requires dpl == 64 * n1 + s && 1 <= s <= 64 && n1 < |u|
    ensures Val(u) % P2(dpl) == Val(u[..n1]) + Mul(u[n1] % P2(s), Pow(n1))
  {
    hide Val, Pow, P2;
    P2Pow(n1);
    P2Add(64 * n1, s);
    ValSplit(u, n1);
    ValBound(u[..n1]);
    var t := u[n1..];
    DivModUnique(Val(u), Pow(n1), Val(t), Val(u[..n1]));
    ModSplit(Val(u), Pow(n1), P2(s));
    assert t == [u[n1]] + u[n1 + 1..];
    ValCons(u[n1], u[n1 + 1..]);
    ModMod(Val(t), s);
    DivModUnique(Val(t), BASE, Val(u[n1 + 1..]), u[n1]);
    MulSwap(Pow(n1), u[n1] % P2(s));
  }

  /** v placed at bit pos above S. */
  ghost function Stacked(S: nat, v: nat, pos: nat): nat {
    S + v * P2(pos)
  }

  /** One more piece of a digit. */
  lemma PieceFits(S: nat, low: nat, x: nat, pos: nat, j: nat)
    requires S < P2(pos) && low < Pow(j)
    ensures Stacked(S, low, pos) < P2(pos + 64 * j) && low + Mul(x, Pow(j)) >= 0
    ensures Stacked(S, low + Mul(x, Pow(j)), pos) == Stacked(S, low, pos) + Mul(x, P2(pos + 64 * j))
    ensures Mul(x, P2(pos + 64 * j)) >= 0
  {
    hide P2, Pow;
    P2Pow(j);
    P2Add(pos, 64 * j);
    PieceNumbers(S, low, x, P2(pos), Pow(j));
  }

  lemma PieceNumbers(S: int, low: int, x: int, p: int, q: int)
    requires 0 <= S < p && 0 <= low < q && 0 <= x
    ensures S + low * p < p * q && low + Mul(x, q) >= 0 && x * (p * q) >= 0
    ensures S + (low + Mul(x, q)) * p == (S + low * p) + x * (p * q)
  {
    MulMono(low + 1, q, p);
    MulDist(low, 1, p);
    MulMono(0, x, q);
    MulSwap(p, q);
    MulMono(0, x * q, p);
    MulDist(low, x * q, p);
    MulAssoc(x, q, p);
  }

  lemma StackedNothing(S: nat, pos: nat)
    ensures Stacked(S, 0, pos) == S
  {}

  /** Writing the digit piece by piece; positions beyond the array are dropped. */
  method WriteDigit(tab: array<limb>, o: nat, len: nat, pos0: nat, u: array<limb>, nb: nat, dpl: nat, ghost S: nat)
    requires o + len <= tab.Length && tab != u && 1 <= dpl && (dpl - 1) / 64 < nb <= u.Length
    requires S < P2(pos0) && Val(tab[o..o + len]) == S % Pow(len)
    modifies tab
    ensures Val(u[..nb]) % P2(dpl) >= 0
    ensures Val(tab[o..o + len]) == Stacked(S, Val(u[..nb]) % P2(dpl), pos0) % Pow(len)
    ensures Untouched(tab, o, o + len)
  {
    hide Mul, Val, Pow, P2, BitAnd, BaseMask, Stacked;
    var n1 := (dpl - 1) / 64;
    ghost var U := u[..nb];
    WriteLimbs(tab, o, len, pos0, u, n1, S);
    assert U[..n1] == u[..n1] && u[n1] == U[n1];
    MaskIs(u[n1], dpl);
    DigitLimbs(U, dpl, n1, if dpl % 64 == 0 then 64 else dpl % 64);
    ValBound(U[..n1]);
    WritePiece(tab, o, len, pos0, pos0 + 64 * n1, n1, BitAnd(u[n1], BaseMask(dpl)), Val(U[..n1]), S);
  }

  /** The whole limbs of the digit. */
  method WriteLimbs(tab: array<limb>, o: nat, len: nat, pos0: nat, u: array<limb>, n1: nat, ghost S: nat)
    requires o + len <= tab.Length && tab != u && n1 <= u.Length
    requires S < P2(pos0) && Val(tab[o..o + len]) == S % Pow(len)
    modifies tab
    ensures Val(tab[o..o + len]) == Stacked(S, Val(u[..n1]), pos0) % Pow(len)
    ensures Untouched(tab, o, o + len)
  {
    hide Mul, Val, Pow, P2, Stacked;
    ghost var U := u[..n1];
    var j, pos := 0, pos0;
    ValZeros([]);
    assert U[..0] == [];
    StackedNothing(S, pos0);
    while j < n1
      invariant 0 <= j <= n1 && pos == pos0 + 64 * j && u[..n1] == U
      invariant Val(tab[o..o + len]) == Stacked(S, Val(U[..j]), pos0) % Pow(len)
      invariant Untouched(tab, o, o + len)
    {
      ValBound(U[..j]);
      assert u[j] == U[j];
      WritePiece(tab, o, len, pos0, pos, j, u[j], Val(U[..j]), S);
      ValPrefix(U, j);
      pos := pos + 64;
      j := j + 1;
    }
    assert U[..n1] == U;
  }

  method WritePiece(tab: array<limb>, o: nat, len: nat, ghost pos0: nat, pos: nat, ghost j: nat, x: limb,
                    ghost low: nat, ghost S: nat)
    requires o + len <= tab.Length && S < P2(pos0) && low < Pow(j) && pos == pos0 + 64 * j
    requires Val(tab[o..o + len]) == Stacked(S, low, pos0) % Pow(len)
    modifies tab
    ensures low + Mul(x, Pow(j)) >= 0
    ensures Val(tab[o..o + len]) == Stacked(S, low + Mul(x, Pow(j)), pos0) % Pow(len)
    ensures Untouched(tab, o, o + len)
  {
    hide Mul, Val, Pow, P2, Stacked;
    PieceFits(S, low, x, pos0, j);
    RemainderSmall(Stacked(S, low, pos0), Pow(len));
    ModAdd(Stacked(S, low, pos0), Mul(x, P2(pos)), Pow(len));
    PutBits(tab, o, len, pos, x);
  }

  // The carry.

  /** Limb p of a number. */
  ghost function LimbOf(w: nat, p: nat): int {
    (w / Pow(p)) % BASE
  }

  lemma LimbOfNext(w: nat, p: nat)
    ensures w / BASE >= 0 && LimbOf(w, p + 1) == LimbOf(w / BASE, p)
  {
    QuotientNatural(w, BASE);
    DivDiv(w, BASE, Pow(p));
    assert Pow(p + 1) == BASE * Pow(p);
  }

  lemma LimbOfFirst(w: nat)
    ensures LimbOf(w, 0) == w % BASE
  {
    assert Pow(0) == 1;
    DivModUnique(w, 1, w, 0);
  }

  /** A limb sequence is determined by the limbs of its value. */
  lemma {:induction false} LimbsOf(c: seq<limb>, w: nat)
    requires forall p: nat | p < |c| :: c[p] == LimbOf(w, p)
    requires w < Pow(|c|)
    ensures Val(c) == w
    decreases |c|
  {
    if |c| == 0 {
      assert Pow(0) == 1;
    } else {
      LimbOfFirst(w);
      QuotientNatural(w, BASE);
      var t, q := c[1..], w / BASE;
      forall p: nat | p < |t|
        ensures t[p] == LimbOf(q, p)
      {
        LimbOfNext(w, p);
      }
      assert Pow(|c|) == Pow(|t|) * BASE;
      LimbsOf(t, q);
      assert c == [c[0]] + t;
      ValCons(c[0], t);
    }
  }

  lemma LimbOfShifted(u: seq<limb>, dpl: nat, p: nat)
    ensures Val(u) / P2(dpl) >= 0
    ensures LimbOf(Val(u) / P2(dpl), p) == TwoLimbs(LimbAt(u, dpl / 64 + p), LimbAt(u, dpl / 64 + p + 1), dpl % 64)
  {
    hide Val, Pow, P2, TwoLimbs;
    QuotientNatural(Val(u), P2(dpl));
    var pos := dpl + 64 * p;
    BitsAt(u, pos);
    assert pos / 64 == dpl / 64 + p && pos % 64 == dpl % 64;
    P2Pow(p);
    P2Add(dpl, 64 * p);
    DivDiv(Val(u), P2(dpl), Pow(p));
  }

  /** Limbs cut out at bit dpl. */
  lemma ShiftedLimbs(u: seq<limb>, c: seq<limb>, dpl: nat)
    requires |c| == |u| && forall p: nat | p < |c| ::
               c[p] == TwoLimbs(LimbAt(u, dpl / 64 + p), LimbAt(u, dpl / 64 + p + 1), dpl % 64)
    ensures Val(u) / P2(dpl) >= 0 && Val(c) == Val(u) / P2(dpl)
  {
    hide Val, Pow, P2, TwoLimbs, LimbOf, LimbAt;
    QuotientNatural(Val(u), P2(dpl));
    var w := Val(u) / P2(dpl);
    forall p: nat | p < |c|
      ensures c[p] == LimbOf(w, p)
    {
      LimbOfShifted(u, dpl, p);
    }
    ValBound(u);
    QuotientSmall(Val(u), P2(dpl));
    LimbsOf(c, w);
  }

  lemma QuotientSmall(a: nat, d: nat)
    requires d >= 1
    ensures a / d <= a
  {
    var q := a / d;
    assert a == q * d + a % d;
    if q > 0 {
      MulMono(1, d, q);
      assert d * q == q * d;
    }
  }

  ghost predicate CarryTail(carry: seq<limb>, nb: nat, dpl: nat) {
    forall x :: 0 <= x < |carry| && x >= nb - dpl / 64 ==> carry[x] == 0
  }

  /** Shift by dpl bits and set the carry. */
  method ShiftCarry(u: array<limb>, carry: array<limb>, nb: nat, dpl: nat)
    requires u != carry && u.Length == carry.Length == NB_MODS && nb <= NB_MODS && 1 <= dpl && (dpl - 1) / 64 < nb
    requires CarryTail(carry[..], nb, dpl)
    modifies carry
    ensures Val(u[..nb]) / P2(dpl) >= 0 && Val(carry[..nb]) == Val(u[..nb]) / P2(dpl)
    ensures CarryTail(carry[..], nb, dpl)
  {
    hide Val, P2, Pow, ShiftRight, ShiftLeft, BitOr;
    var n1, shift := (dpl - 1) / 64, dpl % 64;
    if shift == 0 {
      CarryLimbs(u, carry, nb, dpl);
    } else {
      CarryBits(u, carry, nb, dpl);
    }
    ghost var U, C := u[..nb], carry[..nb];
    forall p: nat | p < nb
      ensures C[p] == TwoLimbs(LimbAt(U, dpl / 64 + p), LimbAt(U, dpl / 64 + p + 1), dpl % 64)
    {
      ZeroLimbs(dpl % 64);
    }
    ShiftedLimbs(U, C, dpl);
  }

  lemma ZeroLimbs(s: nat)
    requires s < 64
    ensures TwoLimbs(0, 0, s) == 0
  {
    if s != 0 {
      DivModUnique(0, P2(s), 0, 0);
    }
  }

  /** Whole limbs. */
  method CarryLimbs(u: array<limb>, carry: array<limb>, nb: nat, dpl: nat)
    requires u != carry && u.Length == carry.Length == NB_MODS && nb <= NB_MODS && dpl % 64 == 0 && 64 <= dpl <= 64 * nb
    modifies carry
    ensures forall p: nat | p < nb - dpl / 64 :: carry[p] == u[dpl / 64 + p]
    ensures forall p: nat | nb - dpl / 64 <= p < NB_MODS :: carry[p] == old(carry[p])
  {
    var n1 := (dpl - 1) / 64;
    var j := n1 + 1;
    while j < nb
      invariant n1 + 1 <= j <= nb
      invariant forall p: nat | p < j - (n1 + 1) :: carry[p] == u[n1 + 1 + p]
      invariant forall p: nat | nb - (n1 + 1) <= p < NB_MODS :: carry[p] == old(carry[p])
    {
      carry[j - (n1 + 1)] := u[j];
      j := j + 1;
    }
  }

  /** Limbs put together from two neighbours. */
  method CarryBits(u: array<limb>, carry: array<limb>, nb: nat, dpl: nat)
    requires u != carry && u.Length == carry.Length == NB_MODS && nb <= NB_MODS && dpl % 64 != 0 && dpl / 64 < nb
    modifies carry
    ensures forall p: nat | p < nb - dpl / 64 ::
      carry[p] == TwoLimbs(u[dpl / 64 + p], LimbAt(u[..nb], dpl / 64 + p + 1), dpl % 64)
    ensures forall p: nat | nb - dpl / 64 <= p < NB_MODS :: carry[p] == old(carry[p])
  {
    hide P2, ShiftRight, ShiftLeft, BitOr;
    var n1, shift := (dpl - 1) / 64, dpl % 64;
    assert n1 == dpl / 64;
    var j := n1;
    while j < nb - 1
      invariant n1 <= j <= nb - 1
      invariant forall p: nat | p < j - n1 :: carry[p] == TwoLimbs(u[n1 + p], LimbAt(u[..nb], n1 + p + 1), shift)
      invariant forall p: nat | nb - n1 <= p < NB_MODS :: carry[p] == old(carry[p])
    {
      OrFits(u[j], u[j + 1], shift);
      carry[j - n1] := BitOr(ShiftRight(u[j], shift), ShiftLeft(u[j + 1], 64 - shift));
      j := j + 1;
    }
    LastLimb(u[nb - 1], shift);
    carry[nb - 1 - n1] := ShiftRight(u[nb - 1], shift);
  }

  lemma OrFits(a0: limb, a1: limb, p: nat)
    requires 0 < p < 64
    ensures BitOr(ShiftRight(a0, p), ShiftLeft(a1, 64 - p)) < BASE
  {
    OrShifted(a0, a1, p);
  }

  lemma LastLimb(a: limb, p: nat)
    requires 0 < p < 64
    ensures TwoLimbs(a, 0, p) == ShiftRight(a, p) < BASE
  {
    QuotientSmall(a, P2(p));
    OrFits(a, 0, p);
    OrShifted(a, 0, p);
  }

  // All coefficients.

  /** Cell (j, i) of the buffer: the coefficient i modulo modulus j, below twice the modulus. */
  ghost predicate CoefficientAt(t: seq<limb>, ms: seq<int>, d: seq<int>, j: nat, i: nat)
    requires j < |ms| && i < |d|
  {
    var x := AtLimb(t, Area(j, |d|) + i);
    x < 2 * ms[j] && Cong(x, d[i], ms[j])
  }

  ghost predicate Coefficients(t: seq<limb>, ms: seq<int>, d: seq<int>) {
    |t| == Area(|ms|, |d|) && forall j: nat, i: nat | j < |ms| && i < |d| :: CoefficientAt(t, ms, d, j, i)
  }

  ghost predicate Bounded(d: seq<int>, D: int) {
    forall i :: 0 <= i < |d| ==> 0 <= d[i] <= D
  }

  /** ntt_limb_to_int */
  method NttLimbToInt(a: limb, m: limb, ghost x: int) returns (r: limb)
    requires m > 0 && a < 2 * m && Cong(a, x, m)
    ensures r < m && Cong(r, x, m)
  {
    r := a;
    if r >= m {
      CongSelf(a, m);
      r := r - m;
    }
  }

  /** The residues of coefficient i. */
  method ReadResidues(y: array<limb>, buf: array<limb>, fftLen: nat, nb: nat, i: nat, ghost d: seq<int>)
    requires y != buf && y.Length == NB_MODS && nb <= NB_MODS && fftLen == |d| && i < fftLen
    requires Coefficients(buf[..], Moduli(nb), d)
    modifies y
    ensures forall k :: 0 <= k < nb ==> y[k] < Moduli(nb)[k] && Cong(y[k], d[i], Moduli(nb)[k])
  {
    hide Area, Cong, Moduli, MODS;
    ghost var ms := Moduli(nb);
    var j, row := 0, 0;
    AreaZero(fftLen);
    while j < nb
      invariant 0 <= j <= nb && row == Area(j, fftLen)
      invariant forall k :: 0 <= k < j ==> y[k] < ms[k] && Cong(y[k], d[i], ms[k])
    {
      CellBound(j, nb, i, fftLen);
      assert CoefficientAt(buf[..], ms, d, j, i);
      ModuliOk(nb, j);
      var m := ModulusAt(nb, j);
      y[j] := NttLimbToInt(buf[row + i], m, d[i]);
      AreaNext(j, fftLen);
      row := row + fftLen;
      j := j + 1;
    }
  }

  /** S holds the digits stored so far, C the carry: together the first i coefficients. */
  ghost predicate Progress(S: nat, C: nat, d: seq<int>, D: int, dpl: nat, i: nat) {
    i <= |d| && S < P2(i * dpl) && C <= D && Stacked(S, C, i * dpl) == Eval(d[..i], P2(dpl))
  }

  lemma ProgressStart(d: seq<int>, D: nat, dpl: nat)
    ensures Progress(0, 0, d, D, dpl, 0)
  {
    assert d[..0] == [];
  }

  lemma ProgressStep(S: nat, C: nat, d: seq<int>, D: int, dpl: nat, i: nat, U: nat)
    requires Progress(S, C, d, D, dpl, i) && i < |d| && Bounded(d, D) && U == d[i] + C && dpl >= 1
    ensures U % P2(dpl) >= 0 && U / P2(dpl) >= 0
    ensures Progress(Stacked(S, U % P2(dpl), i * dpl), U / P2(dpl), d, D, dpl, i + 1)
  {
    hide P2, Eval, Stacked, Power, Mul;
    var X := P2(dpl);
    BaseAtLeastTwo(dpl);
    DivModFacts(U, X);
    NextPosition(i, dpl);
    P2Add(i * dpl, dpl);
    P2Power(dpl, i);
    PrefixEval(d, i, X);
    StackedArith(S, C, d[i], D, i * dpl, dpl, U, U / X, U % X);
  }

  lemma BaseAtLeastTwo(dpl: nat)
    requires dpl >= 1
    ensures P2(dpl) >= 2
  {
    assert P2(dpl) == 2 * P2(dpl - 1);
  }

  lemma PrefixEval(d: seq<int>, i: nat, X: int)
    requires i < |d|
    ensures Eval(d[..i + 1], X) == Eval(d[..i], X) + Power(X, i) * d[i]
  {
    assert d[..i + 1] == d[..i] + [d[i]];
    EvalConcat(d[..i], [d[i]], X);
    EvalOne(d[i], X);
  }

  lemma StackedArith(S: nat, C: nat, c: nat, D: nat, pos: nat, dpl: nat, U: nat, q: nat, r: nat)
    requires U == c + C && U == Mul(q, P2(dpl)) + r && r < P2(dpl) && P2(dpl) >= 2 && U <= 2 * D && S < P2(pos)
    requires P2(pos + dpl) == P2(pos) * P2(dpl)
    ensures Stacked(S, r, pos) < P2(pos + dpl) && q <= D
    ensures Stacked(Stacked(S, r, pos), q, pos + dpl) == Stacked(S, C, pos) + P2(pos) * c
  {
    hide P2, Mul;
    StackedNumbers(S, C, c, D, P2(pos), P2(dpl), U, q, r);
  }

  lemma StackedNumbers(S: int, C: int, c: int, D: int, p: int, X: int, U: int, q: int, r: int)
    requires U == c + C && U == Mul(q, X) + r && 0 <= r < X && X >= 2 && 0 <= U <= 2 * D && 0 <= S < p && 0 <= q
    ensures S + r * p < p * X && q <= D && (S + r * p) + q * (p * X) == (S + C * p) + p * c
  {
    MulMono(r + 1, X, p);
    MulDist(r, 1, p);
    MulMono(2, X, q);
    MulSwap(q, X);
    SplitDigit(U, q, r, p, X);
    MulDist(c, C, p);
  }

  lemma SplitDigit(U: int, q: int, r: int, p: int, X: int)
    requires U == Mul(q, X) + r
    ensures q * (p * X) + r * p == U * p
  {
    MulDist(q * X, r, p);
    assert q * (p * X) == q * X * p;
  }

  lemma {:induction false} EvalNatural(d: seq<int>, D: int, X: nat)
    requires Bounded(d, D)
    ensures Eval(d, X) >= 0
    decreases |d|
  {
    if d != [] {
      EvalNatural(d[1..], D, X);
      MulMono(0, X, Eval(d[1..], X));
    }
  }

  lemma DigitsCover(rLen: nat, fftLen: nat, dpl: nat)
    requires dpl >= 1 && 64 * rLen <= fftLen * dpl
    ensures 64 * rLen <= Min(fftLen, DigitCount(rLen, dpl)) * dpl
  {
    var x := rLen * 64 + dpl - 1;
    var q := x / dpl;
    assert x == q * dpl + x % dpl;
  }

  /** What is stored in the end is everything: nothing is carried out. */
  lemma ProgressEnd(S: nat, C: nat, d: seq<int>, D: int, dpl: nat, n: nat, rLen: nat)
    requires Progress(S, C, d, D, dpl, n) && Bounded(d, D) && 64 * rLen <= n * dpl && Eval(d, P2(dpl)) < Pow(rLen)
    ensures S % Pow(rLen) == S == Eval(d, P2(dpl))
  {
    hide Eval, Pow, P2;
    P2Pow(rLen);
    P2Monotone(64 * rLen, n * dpl);
    P2Power(dpl, n);
    assert d == d[..n] + d[n..];
    EvalConcat(d[..n], d[n..], P2(dpl));
    EvalNatural(d[n..], D, P2(dpl));
    NothingAbove(S, C, Eval(d[n..], P2(dpl)), P2(n * dpl), Pow(rLen));
    DivModUnique(S, Pow(rLen), 0, S);
  }

  lemma NothingAbove(S: int, C: int, e: int, p: int, limit: int)
    requires 0 <= S && 0 <= C && 0 <= e && p >= limit && p >= 0 && S + C * p + p * e < limit
    ensures C == 0 && p * e == 0
  {
    if C >= 1 {
      MulMono(1, C, p);
    }
    MulMono(0, e, p);
    MulMono(0, C, p);
    if e >= 1 {
      MulMono(1, e, p);
    }
  }

  /** ntt_to_limb: the number whose digits in base 2^dpl are the coefficients, carries and all. */
  method NttToLimb(tabr: array<limb>, o: nat, rLen: nat, buf: array<limb>, fftLen: nat, dpl: nat, nb: nat,
                   crInv: seq<limb>, ghost d: seq<int>, ghost D: nat)
    requires tabr != buf && o + rLen <= tabr.Length && 2 <= nb <= NB_MODS && 1 <= dpl <= 64 * nb && CrInvOk(crInv)
    requires |d| == fftLen && 64 * rLen <= fftLen * dpl && Coefficients(buf[..], Moduli(nb), d)
    requires Bounded(d, D) && D < Product(Moduli(nb)) && Eval(d, P2(dpl)) < Pow(rLen)
    modifies tabr
    ensures Val(tabr[o..o + rLen]) == Eval(d, P2(dpl))
    ensures Untouched(tabr, o, o + rLen)
  {
    hide Val, Pow, P2, Eval, Moduli, MODS, Coefficients, Bounded, Progress, Stacked, CrInvOk, CarryTail, DigitCount,
        Product;
    ghost var T := buf[..];
    var y, u, carry := new limb[NB_MODS](i => 0), new limb[NB_MODS](i => 0), new limb[NB_MODS](i => 0);
    forall x | o <= x < o + rLen {
      tabr[x] := 0;
    }
    ghost var S: nat, C: nat := 0, 0;
    assert buf[..] == T;
    StoreStart(tabr[o..o + rLen], carry[..], nb, dpl);
    ProgressStart(d, D, dpl);
    var n := Min(fftLen, DigitCount(rLen, dpl));
    var i, pos := 0, 0;
    while i < n
      invariant 0 <= i <= n && pos == i * dpl && Val(carry[..nb]) == C && CarryTail(carry[..], nb, dpl)
      invariant buf[..] == T
      invariant Val(tabr[o..o + rLen]) == S % Pow(rLen) && Progress(S, C, d, D, dpl, i)
      invariant Untouched(tabr, o, o + rLen)
    {
      ReadResidues(y, buf, fftLen, nb, i, d);
      S, C := StoreOne(tabr, o, rLen, y, u, carry, pos, dpl, nb, crInv, d, D, i, S, C);
      NextPosition(i, dpl);
      pos := pos + dpl;
      i := i + 1;
    }
    DigitsCover(rLen, fftLen, dpl);
    ProgressEnd(S, C, d, D, dpl, n, rLen);
  }

  lemma StoreStart(t: seq<limb>, carry: seq<limb>, nb: nat, dpl: nat)
    requires forall x :: 0 <= x < |t| ==> t[x] == 0
    requires nb <= |carry| && forall x :: 0 <= x < |carry| ==> carry[x] == 0
    ensures Val(t) == 0 % Pow(|t|) && Val(carry[..nb]) == 0 && CarryTail(carry, nb, dpl)
  {
    ValZeros(t);
    ValZeros(carry[..nb]);
    DivModUnique(0, Pow(|t|), 0, 0);
  }

  /** One coefficient: Chinese remainder, back to limbs with the carry, digit out, carry on. */
  method StoreOne(tabr: array<limb>, o: nat, rLen: nat, y: array<limb>, u: array<limb>, carry: array<limb>, pos: nat,
                  dpl: nat,
                  nb: nat, crInv: seq<limb>, ghost d: seq<int>, ghost D: nat, ghost i: nat, ghost S: nat, ghost C: nat)
    returns (ghost S': nat, ghost C': nat)
    requires o + rLen <= tabr.Length && 2 <= nb <= NB_MODS && 1 <= dpl <= 64 * nb && CrInvOk(crInv)
    requires y.Length == u.Length == carry.Length == NB_MODS && y != u && y != carry && u != carry
    requires tabr != y && tabr != u && tabr != carry
    requires i < |d| && Bounded(d, D) && D < Product(Moduli(nb)) && pos == i * dpl
    requires forall k :: 0 <= k < nb ==> y[k] < Moduli(nb)[k] && Cong(y[k], d[i], Moduli(nb)[k])
    requires Val(carry[..nb]) == C && CarryTail(carry[..], nb, dpl)
    requires Val(tabr[o..o + rLen]) == S % Pow(rLen) && Progress(S, C, d, D, dpl, i)
    modifies tabr, y, u, carry
    ensures Val(carry[..nb]) == C' && CarryTail(carry[..], nb, dpl)
    ensures Val(tabr[o..o + rLen]) == S' % Pow(rLen) && Progress(S', C', d, D, dpl, i + 1)
    ensures Untouched(tabr, o, o + rLen)
  {
    hide Val, Pow, P2, Eval, Moduli, MODS, Progress, Stacked, CrInvOk, CarryTail, Product, Mixed, Cong;
    ProgressFacts(S, C, d, D, dpl, i, nb);
    MixedRadix(y, nb, crInv, d[i]);
    FromMixed(y, nb, u, carry);
    ghost var U := Val(u[..nb]);
    WriteDigit(tabr, o, rLen, pos, u, nb, dpl, S);
    ShiftCarry(u, carry, nb, dpl);
    ProgressStep(S, C, d, D, dpl, i, U);
    S', C' := Stacked(S, U % P2(dpl), pos), U / P2(dpl);
  }

  lemma ProgressFacts(S: nat, C: nat, d: seq<int>, D: int, dpl: nat, i: nat, nb: nat)
    requires 1 <= nb <= NB_MODS && Progress(S, C, d, D, dpl, i) && i < |d| && Bounded(d, D) && D < Product(Moduli(nb))
    ensures 0 <= d[i] < Product(Moduli(nb)) && d[i] + C < Pow(nb) && S < P2(i * dpl)
  {
    hide Eval, Stacked, Pow, P2, Moduli, MODS, Product;
    var ms := Moduli(nb);
    forall i | 0 <= i < |ms|
      ensures 0 < ms[i] <= HALF
    {
      ModuliOk(nb, i);
    }
    ProductFits(ms);
  }
}
