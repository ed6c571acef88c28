/** fft_mul: the product of two limb arrays through number theoretic transforms. */
module NttMul {
  import opened Limbs
  import opened LimbArith
  import opened BitFields
  import opened Congruence
  import opened NttRoots
  import opened NttField
  import opened NttStage
  import opened NttTransform
  import opened NttRows
  import opened NttConv
  import opened NttLoad
  import opened NttGarner
  import opened NttStore
  import opened NttCyclic
  import opened NttSize

  // One modulus.

  /** Row j of a buffer with rows of length n. */
  ghost function RowAt(t: seq<limb>, n: nat, j: nat): seq<limb> {
    if Area(j, n) + n <= |t| then t[Area(j, n)..Area(j, n) + n] else []
  }

  /** The row holds the coefficients d modulo m, each below twice the modulus. */
  ghost predicate RowOk(c: seq<limb>, d: seq<int>, m: int) {
    Lazy(c, m) && |c| == |d| && forall i: nat | i < |c| :: Cong(c[i], d[i], m)
  }

  lemma ResiduesEval(t: seq<limb>, d: seq<int>, y: int, m: int)
    requires Residues(t, d, m) && m > 0
    ensures Cong(Eval(Ints(t), y), Eval(d, y), m)
  {
    hide Cong;
    CongRefl(y, m);
    assert CongEach(Ints(t), d, m);
    EvalCong(Ints(t), d, y, y, m);
  }

  lemma ResiduesLazy(t: seq<limb>, d: seq<int>, m: int)
    requires Residues(t, d, m) && m > 0
    ensures Lazy(t, m)
  {
    hide Cong;
  }

  lemma UnitFactor(f: Field, k: nat)
    requires RootAt(f, 0, k)
    ensures Cong(Factor(f, k, k), 1, f.m) && k < |f.lenInv| && Cong(P2(k) * f.lenInv[k].0, 1, f.m)
  {
    hide P2, Cong;
    NormOk(f, k);
    MulSwap(f.lenInv[k].0, P2(k));
  }

  /** What ntt_conv leaves for one modulus: the coefficients of the cyclic convolution. */
  lemma ConvRowOk(A: seq<limb>, B: seq<limb>, C: seq<limb>, da: seq<int>, db: seq<int>, f: Field, k: nat)
    requires RootAt(f, 0, k) && |A| == |B| == |C| == P2(k) && f.m > 0 && Lazy(C, f.m)
    requires Residues(A, da, f.m) && Residues(B, db, f.m)
    requires ConvOk(Ints(A), Ints(B), Ints(C), Root(f, 0, k), P2(k), Factor(f, k, k), f.m)
    ensures RowOk(C, Cyclic(da, db), f.m)
  {
    hide P2, Power, Cong, Eval, Cyclic, Lazy, RootAt, Factor, Root, Residues;
    var w, v, m, s, n := Root(f, 0, k), Root(f, 1, k), f.m, Factor(f, k, k), P2(k);
    UnitFactor(f, k);
    RootsInverse(f, k);
    ResiduesLength(A, da, m);
    ResiduesLength(B, db, m);
    forall q: nat | q < n
      ensures ConvAt(da, db, Ints(C), Power(w, q), s, m)
    {
      var x := Power(w, q);
      assert ConvAt(Ints(A), Ints(B), Ints(C), x, s, m);
      ResiduesEval(A, da, x, m);
      ResiduesEval(B, db, x, m);
      ConvTransfer(Eval(Ints(C), x), s, Eval(Ints(A), x), Eval(Ints(B), x), Eval(da, x), Eval(db, x), m);
    }
    forall i: nat | i < n
      ensures Cong(C[i], Cyclic(da, db)[i], m)
    {
      ConvCoefficient(da, db, Ints(C), w, v, k, f.lenInv[k].0, s, i, m);
      UnitScale(C[i], s, Cyclic(da, db)[i], m);
    }
  }

  lemma ResiduesLength(t: seq<limb>, d: seq<int>, m: int)
    requires Residues(t, d, m)
    ensures |t| == |d|
  {}

  lemma ConvTransfer(c: int, s: int, a: int, b: int, a': int, b': int, m: int)
    requires Cong(c, s * (a * b), m) && Cong(a, a', m) && Cong(b, b', m)
    ensures Cong(c, s * (a' * b'), m)
  {
    CongPositive(a, a', m);
    CongMul(a, a', b, b', m);
    CongRefl(s, m);
    CongMul(s, s, a * b, a' * b', m);
  }

  lemma UnitScale(c: int, s: int, x: int, m: int)
    requires Cong(c, s * x, m) && Cong(s, 1, m)
    ensures Cong(c, x, m)
  {
    CongPositive(s, 1, m);
    CongRefl(x, m);
    CongMul(s, 1, x, x, m);
  }

  // All moduli.

  /** Rows before j hold the convolution, the others the digits of the first factor. */
  ghost predicate ConvRowsAt(t: seq<limb>, ms: seq<int>, da: seq<int>, d: seq<int>, n: nat, j: nat, r: nat)
    requires r < |ms|
  {
    if r < j then RowOk(RowAt(t, n, r), d, ms[r]) else Residues(RowAt(t, n, r), da, ms[r])
  }

  ghost predicate ConvRowsDone(t: seq<limb>, ms: seq<int>, da: seq<int>, d: seq<int>, n: nat, j: nat) {
    |t| == Area(|ms|, n) && forall r: nat | r < |ms| :: ConvRowsAt(t, ms, da, d, n, j, r)
  }

  lemma RowSeparate(t: seq<limb>, t': seq<limb>, n: nat, j: nat, r: nat)
    requires |t| == |t'| && r != j
    requires forall x :: 0 <= x < |t| && !(Area(j, n) <= x < Area(j, n) + n) ==> t'[x] == t[x]
    ensures RowAt(t', n, r) == RowAt(t, n, r)
  {
    if r < j {
      AreaRoom(r, j, n);
    } else {
      AreaRoom(j, r, n);
    }
    hide Area;
    var x, y := RowAt(t', n, r), RowAt(t, n, r);
    forall i | 0 <= i < |x|
      ensures x[i] == y[i]
    {
      assert x[i] == t'[Area(r, n) + i] && y[i] == t[Area(r, n) + i];
    }
  }

  lemma ConvRowsStep(t: seq<limb>, t': seq<limb>, ms: seq<int>, da: seq<int>, d: seq<int>, n: nat, j: nat)
    requires ConvRowsDone(t, ms, da, d, n, j) && j < |ms| && |t'| == |t| && RowOk(RowAt(t', n, j), d, ms[j])
    requires forall x :: 0 <= x < |t| && !(Area(j, n) <= x < Area(j, n) + n) ==> t'[x] == t[x]
    ensures ConvRowsDone(t', ms, da, d, n, j + 1)
  {
    hide RowOk, Residues, RowAt, Area;
    var j' := j + 1;
    forall r: nat | r < |ms|
      ensures ConvRowsAt(t', ms, da, d, n, j', r)
    {
      assert ConvRowsAt(t, ms, da, d, n, j, r);
      if r != j {
        RowSeparate(t, t', n, j, r);
      }
    }
  }

  /** All rows done: the coefficients of the result, by every modulus. */
  lemma ConvRowsEnd(t: seq<limb>, ms: seq<int>, da: seq<int>, d: seq<int>, n: nat)
    requires ConvRowsDone(t, ms, da, d, n, |ms|) && |d| == n
    ensures Coefficients(t, ms, d)
  {
    hide Area, Cong;
    forall j: nat, i: nat | j < |ms| && i < |d|
      ensures CoefficientAt(t, ms, d, j, i)
    {
      assert ConvRowsAt(t, ms, da, d, n, |ms|, j);
      var c := RowAt(t, n, j);
      AreaRoom(j, |ms|, n);
      assert c[i] == t[Area(j, n) + i];
    }
  }

  ghost predicate ModuliOf(fs: seq<Field>, nb: nat) {
    nb <= NB_MODS && |fs| == nb && FieldsOk(fs) && forall j: nat | j < nb :: fs[j].m == Moduli(nb)[j]
  }

  /** The digits of the first factor, in every row. */
  lemma LoadedRows(t: seq<limb>, fs: seq<Field>, nb: nat, v: nat, dpl: nat, fftLen: nat, n: nat, d: seq<int>)
    requires ModuliOf(fs, nb) && Loaded(t, fs, v, dpl, fftLen, n, 0) && |t| == Area(nb, fftLen)
    ensures ConvRowsDone(t, Moduli(nb), Digits(v, dpl, n, fftLen), d, fftLen, 0)
  {
    hide Area, Residues, Loaded, FieldOk, Moduli, RowOk;
    forall r: nat | r < nb
      ensures ConvRowsAt(t, Moduli(nb), Digits(v, dpl, n, fftLen), d, fftLen, 0, r)
    {
      assert FieldOk(fs[r]);
      LoadedRow(t, fs, v, dpl, fftLen, n, r);
    }
  }

  // The tables.

  /** ntt_static_init */
  method NttStaticInit() returns (fs: seq<Field>, crInv: seq<limb>)
    ensures |fs| == NB_MODS && FieldsOk(fs) && (forall j: nat | j < NB_MODS :: fs[j].m == MODS[j])
    ensures CrInvOk(crInv)
  {
    hide FieldOk, CrInvOk;
    fs := [];
    var j := 0;
    while j < NB_MODS
      invariant 0 <= j <= NB_MODS && |fs| == j && FieldsOk(fs)
      invariant forall i: nat | i < j :: fs[i].m == MODS[i]
    {
      var f := InitField(j);
      fs := fs + [f];
      j := j + 1;
    }
    crInv := InitCr();
  }

  lemma LastFields(fs: seq<Field>, nb: nat)
    requires nb <= NB_MODS && |fs| == NB_MODS && FieldsOk(fs) && forall j: nat | j < NB_MODS :: fs[j].m == MODS[j]
    ensures ModuliOf(fs[NB_MODS - nb..], nb)
  {
    hide FieldOk;
    var gs := fs[NB_MODS - nb..];
    forall j: nat | j < nb
      ensures gs[j].m == Moduli(nb)[j] && FieldOk(gs[j])
    {
      assert gs[j] == fs[NB_MODS - nb + j];
    }
  }

  // Sizes.

  /** The digit polynomials of the factors, their convolution, and why it fits. */
  lemma ProductFacts(a: nat, n1: nat, b: nat, n2: nat, k: nat, dpl: nat, nb: nat, D: nat)
    requires a < Pow(n1) && b < Pow(n2) && n1 >= 1 && n2 >= 1 && SizeOk(n1 + n2, k, dpl, nb)
    requires D == P2(k) * ((P2(dpl) - 1) * (P2(dpl) - 1))
    ensures DigitCount(n1, dpl) <= P2(k) && DigitCount(n2, dpl) <= P2(k)
    ensures
      var d := Cyclic(Digits(a, dpl, DigitCount(n1, dpl), P2(k)), Digits(b, dpl, DigitCount(n2, dpl), P2(k)));
      && |d| == P2(k) && Bounded(d, D) && D < Product(Moduli(nb))
      && Eval(d, P2(dpl)) == a * b < Pow(n1 + n2)
  {
    hide P2, Pow, Digits, Cyclic, DigitCount, Moduli, Eval, Product;
    var na, nb', n, X := DigitCount(n1, dpl), DigitCount(n2, dpl), P2(k), P2(dpl);
    CountsAdd(n1, n2, dpl);
    var da, db := Digits(a, dpl, na, n), Digits(b, dpl, nb', n);
    NumberFits(a, n1, dpl);
    NumberFits(b, n2, dpl);
    DigitsEval(a, dpl, na, n);
    DigitsEval(b, dpl, nb', n);
    DigitsShape(a, dpl, na, n);
    DigitsShape(b, dpl, nb', n);
    CyclicProduct(da, db, na, nb', X);
    ConvolutionBounded(da, db, X - 1, D);
    BoundFits(k, dpl, nb, D);
    ProductBelow(a, Pow(n1), b, Pow(n2));
    PowAdd(n1, n2);
  }

  lemma ProductBelow(a: int, p: int, b: int, q: int)
    requires 0 <= a < p && 0 <= b < q
    ensures a * b < Mul(p, q)
  {
    MulMono(a, p, b);
    MulMono(b + 1, q, p);
    MulDist(b, 1, p);
    MulSwap(p, b);
    MulSwap(p, q);
  }

  /** ceil(x) + ceil(y) <= ceil(x + y) + 1 */
  lemma CountsAdd(n1: nat, n2: nat, dpl: nat)
    requires dpl >= 1 && n1 >= 1 && n2 >= 1
    ensures DigitCount(n1, dpl) + DigitCount(n2, dpl) <= DigitCount(n1 + n2, dpl) + 1
    ensures 1 <= DigitCount(n1, dpl) && 1 <= DigitCount(n2, dpl)
  {
    DigitCountIs(n1, dpl);
    DigitCountIs(n2, dpl);
    DigitCountIs(n1 + n2, dpl);
    hide DigitCount;
    CountNumbers(DigitCount(n1, dpl), DigitCount(n2, dpl), DigitCount(n1 + n2, dpl), dpl, n1 * 64, n2 * 64);
  }

  lemma CountNumbers(x: nat, y: nat, z: nat, dpl: nat, p: nat, q: nat)
    requires p <= Mul(x, dpl) < p + dpl && q <= Mul(y, dpl) < q + dpl && p + q <= Mul(z, dpl) && p >= 1 && q >= 1
    ensures x + y <= z + 1 && x >= 1 && y >= 1
  {
    if x + y >= z + 2 {
      MulMono(z + 2, x + y, dpl);
      MulDist(x, y, dpl);
      MulDist(z, 2, dpl);
    }
  }

  lemma NumberFits(v: nat, n: nat, dpl: nat)
    requires v < Pow(n) && dpl >= 1
    ensures v < P2(DigitCount(n, dpl) * dpl)
  {
    P2Pow(n);
    DigitCountIs(n, dpl);
    P2Monotone(64 * n, DigitCount(n, dpl) * dpl);
  }

  ghost predicate InDigits(d: seq<int>, M: int) {
    forall i :: 0 <= i < |d| ==> 0 <= d[i] <= M
  }

  lemma DigitsShape(v: nat, dpl: nat, n: nat, fftLen: nat)
    requires n <= fftLen
    ensures InDigits(Digits(v, dpl, n, fftLen), P2(dpl) - 1) && ZeroFrom(Digits(v, dpl, n, fftLen), n)
  {
    var d := Digits(v, dpl, n, fftLen);
    hide P2;
    forall i | 0 <= i < |d|
      ensures 0 <= d[i] <= P2(dpl) - 1
    {
      QuotientNatural(v, P2(i * dpl));
      RemainderBound(v / P2(i * dpl), P2(dpl));
    }
  }

  lemma ConvolutionBounded(a: seq<int>, b: seq<int>, M: nat, D: int)
    requires InDigits(a, M) && InDigits(b, M) && |a| == |b| && D == |a| * (M * M)
    ensures Bounded(Cyclic(a, b), D)
  {
    var d := Cyclic(a, b);
    forall i | 0 <= i < |d|
      ensures 0 <= d[i] <= D
    {
      CyclicBound(a, b, M, i);
    }
  }

  lemma BoundFits(k: nat, dpl: nat, nb: nat, D: int)
    requires 3 <= nb <= NB_MODS && k + 2 * dpl <= INT_BITS[NB_MODS - nb]
    requires D == P2(k) * ((P2(dpl) - 1) * (P2(dpl) - 1)) && dpl >= 1
    ensures D < Product(Moduli(nb))
  {
    hide Product, Moduli, P2;
    ModuliProduct(nb);
    P2Monotone(k + 2 * dpl, INT_BITS[NB_MODS - nb]);
    P2Add(k, dpl + dpl);
    P2Add(dpl, dpl);
    assert k + 2 * dpl == k + (dpl + dpl);
    BoundNumbers(P2(k), P2(dpl));
  }

  lemma BoundNumbers(p: nat, X: nat)
    requires p >= 1 && X >= 1
    ensures p * ((X - 1) * (X - 1)) < p * (X * X)
  {
    MulDist(X - 1, 1, X);
    MulDist(X - 1, 1, X - 1);
    MulSwap(X, X - 1);
    var e := X * X - (X - 1) * (X - 1);
    assert e >= 1;
    MulDist((X - 1) * (X - 1), e, p);
    MulMono(1, e, p);
    MulSwap(e, p);
  }

  // The multiplication.

  /** One modulus: ntt_conv on a row of each buffer. */
  method ConvModulus(buf1: array<limb>, o1: nat, buf2: array<limb>, o2: nat, f: Field, k: nat, ghost da: seq<int>,
                     ghost db: seq<int>)
    requires RootAt(f, 0, k) && buf1 != buf2 && o1 + P2(k) <= buf1.Length && o2 + P2(k) <= buf2.Length
    requires Residues(buf1[o1..o1 + P2(k)], da, f.m) && Residues(buf2[o2..o2 + P2(k)], db, f.m)
    modifies buf1, buf2
    ensures RowOk(buf1[o1..o1 + P2(k)], Cyclic(da, db), f.m)
    ensures Untouched(buf1, o1, o1 + P2(k)) && Untouched(buf2, o2, o2 + P2(k))
  {
    RootRange(f, k);
    hide RootAt, Residues, RowOk, P2, ConvOk, Root, Factor, Lazy, Cyclic, Ints;
    ghost var A, B := buf1[o1..o1 + P2(k)], buf2[o2..o2 + P2(k)];
    ResiduesLazy(A, da, f.m);
    ResiduesLazy(B, db, f.m);
    NttConv.NttConv(buf1, o1, buf2, o2, f, k, k);
    ConvRowOk(A, B, buf1[o1..o1 + P2(k)], da, db, f, k);
  }

  lemma RootRange(f: Field, k: nat)
    requires RootAt(f, 0, k)
    ensures f.m > 0 && k <= PROOT_2EXP
  {}

  /** Rows from j on hold the digits d. */
  ghost predicate RowsLeft(t: seq<limb>, ms: seq<int>, d: seq<int>, n: nat, j: nat) {
    |t| == Area(|ms|, n) && forall r: nat | j <= r < |ms| :: Residues(RowAt(t, n, r), d, ms[r])
  }

  lemma RowsLeftStart(t: seq<limb>, ms: seq<int>, da: seq<int>, d: seq<int>, n: nat)
    requires ConvRowsDone(t, ms, da, d, n, 0)
    ensures RowsLeft(t, ms, da, n, 0)
  {
    hide Residues, RowAt, Area;
    forall r: nat | r < |ms|
      ensures Residues(RowAt(t, n, r), da, ms[r])
    {
      assert ConvRowsAt(t, ms, da, d, n, 0, r);
    }
  }

  lemma RowsLeftStep(t: seq<limb>, t': seq<limb>, ms: seq<int>, d: seq<int>, n: nat, j: nat)
    requires RowsLeft(t, ms, d, n, j) && j < |ms| && |t'| == |t|
    requires forall x :: 0 <= x < |t| && !(Area(j, n) <= x < Area(j, n) + n) ==> t'[x] == t[x]
    ensures RowsLeft(t', ms, d, n, j + 1)
  {
    hide Residues, RowAt, Area;
    forall r: nat | j + 1 <= r < |ms|
      ensures Residues(RowAt(t', n, r), d, ms[r])
    {
      RowSeparate(t, t', n, j, r);
    }
  }

  lemma RowIs(t: seq<limb>, n: nat, j: nat, nb: nat)
    requires j < nb && |t| == Area(nb, n)
    ensures Area(j, n) + n <= |t| && RowAt(t, n, j) == t[Area(j, n)..Area(j, n) + n]
  {
    AreaRoom(j, nb, n);
  }

  lemma RowGet(t: seq<limb>, ms: seq<int>, da: seq<int>, d: seq<int>, n: nat, j: nat)
    requires ConvRowsDone(t, ms, da, d, n, j) && j < |ms|
    ensures Residues(RowAt(t, n, j), da, ms[j])
  {
    hide Residues, RowAt;
    assert ConvRowsAt(t, ms, da, d, n, j, j);
  }

  /** The convolutions of one modulus after the other, each factor loaded once. */
  method ConvRowsOf(buf1: array<limb>, buf2: array<limb>, fs: seq<Field>, k: nat, nb: nat, ghost da: seq<int>,
                    ghost db: seq<int>)
    requires 1 <= k <= PROOT_2EXP && ModuliOf(fs, nb) && buf1 != buf2 && buf2.Length == Area(nb, P2(k))
    requires ConvRowsDone(buf1[..], Moduli(nb), da, Cyclic(da, db), P2(k), 0)
    requires RowsLeft(buf2[..], Moduli(nb), db, P2(k), 0)
    modifies buf1, buf2
    ensures ConvRowsDone(buf1[..], Moduli(nb), da, Cyclic(da, db), P2(k), nb)
  {
    hide FieldOk, Residues, RowOk, RowAt, P2, ConvRowsDone, RowsLeft, Moduli, Area, Cyclic;
    var n := P2(k);
    ghost var ms, d := Moduli(nb), Cyclic(da, db);
    var j, row := 0, 0;
    AreaZero(n);
    while j < nb
      invariant 0 <= j <= nb && row == Area(j, n)
      invariant ConvRowsDone(buf1[..], ms, da, d, n, j) && RowsLeft(buf2[..], ms, db, n, j)
    {
      RowLength(buf1[..], ms, da, d, n, j);
      ghost var t, t2 := buf1[..], buf2[..];
      RowIs(t, n, j, nb);
      RowIs(t2, n, j, nb);
      RowGet(t, ms, da, d, n, j);
      LeftGet(t2, ms, db, n, j);
      FieldAt(fs, nb, k, j);
      assert buf1[row..row + n] == t[row..row + n] && buf2[row..row + n] == t2[row..row + n];
      ConvModulus(buf1, row, buf2, row, fs[j], k, da, db);
      RowIs(buf1[..], n, j, nb);
      assert buf1[row..row + n] == buf1[..][row..row + n];
      ConvRowsStep(t, buf1[..], ms, da, d, n, j);
      RowsLeftStep(t2, buf2[..], ms, db, n, j);
      AreaNext(j, n);
      row := row + n;
      j := j + 1;
    }
  }

  lemma LeftGet(t: seq<limb>, ms: seq<int>, d: seq<int>, n: nat, j: nat)
    requires RowsLeft(t, ms, d, n, j) && j < |ms|
    ensures Residues(RowAt(t, n, j), d, ms[j])
  {
    hide Residues, RowAt;
  }

  lemma RowLength(t: seq<limb>, ms: seq<int>, da: seq<int>, d: seq<int>, n: nat, j: nat)
    requires ConvRowsDone(t, ms, da, d, n, j)
    ensures |t| == Area(|ms|, n)
  {}

  lemma FieldAt(fs: seq<Field>, nb: nat, k: nat, j: nat)
    requires ModuliOf(fs, nb) && j < nb && 1 <= k <= PROOT_2EXP
    ensures RootAt(fs[j], 0, k) && fs[j].m == Moduli(nb)[j] && FieldOk(fs[j])
  {
    hide FieldOk, Moduli;
  }

  /** The same in reduced memory mode: the second factor is loaded again for every modulus. */
  method ConvRowsReduced(buf1: array<limb>, b: array<limb>, bo: nat, n2: nat, fs: seq<Field>, k: nat, dpl: nat, nb: nat,
                         ghost da: seq<int>, ghost db: seq<int>)
    requires 1 <= k <= PROOT_2EXP && ModuliOf(fs, nb) && buf1 != b && bo + n2 <= b.Length && 1 <= dpl <= DPL_MAX
    requires DigitCount(n2, dpl) <= P2(k) && db == Digits(Val(b[bo..bo + n2]), dpl, DigitCount(n2, dpl), P2(k))
    requires ConvRowsDone(buf1[..], Moduli(nb), da, Cyclic(da, db), P2(k), 0)
    modifies buf1
    ensures ConvRowsDone(buf1[..], Moduli(nb), da, Cyclic(da, db), P2(k), nb)
  {
    hide FieldOk, Residues, RowOk, RowAt, P2, ConvRowsDone, Moduli, Area, Cyclic, Digits, DigitCount, Val;
    var n := P2(k);
    ghost var ms, d, B := Moduli(nb), Cyclic(da, db), b[bo..bo + n2];
    var buf2 := new limb[n](i => 0);
    var j, row := 0, 0;
    AreaZero(n);
    while j < nb
      invariant 0 <= j <= nb && row == Area(j, n) && b[bo..bo + n2] == B
      invariant ConvRowsDone(buf1[..], ms, da, d, n, j)
    {
      RowLength(buf1[..], ms, da, d, n, j);
      ghost var t := buf1[..];
      RowIs(t, n, j, nb);
      RowGet(t, ms, da, d, n, j);
      FieldAt(fs, nb, k, j);
      LoadOne(buf2, n, b, bo, n2, dpl, fs[j], db);
      assert buf1[row..row + n] == t[row..row + n] && buf2[0..n] == buf2[..];
      ConvModulus(buf1, row, buf2, 0, fs[j], k, da, db);
      RowIs(buf1[..], n, j, nb);
      assert buf1[row..row + n] == buf1[..][row..row + n];
      ConvRowsStep(t, buf1[..], ms, da, d, n, j);
      AreaNext(j, n);
      row := row + n;
      j := j + 1;
    }
  }

  /** limb_to_ntt for a single modulus. */
  method LoadOne(buf: array<limb>, n: nat, b: array<limb>, bo: nat, n2: nat, dpl: nat, f: Field, ghost db: seq<int>)
    requires buf != b && buf.Length == n && bo + n2 <= b.Length && 1 <= dpl <= DPL_MAX && FieldOk(f)
    requires DigitCount(n2, dpl) <= n && db == Digits(Val(b[bo..bo + n2]), dpl, DigitCount(n2, dpl), n)
    modifies buf
    ensures Residues(buf[..], db, f.m)
  {
    hide FieldOk, Residues, Digits, DigitCount, Val, Area, Loaded;
    AreaZero(n);
    AreaOne(n);
    OneField(f);
    LimbToNtt(buf, n, b, bo, n2, dpl, [f]);
    LoadedRow(buf[..], [f], Val(b[bo..bo + n2]), dpl, n, DigitCount(n2, dpl), 0);
    assert buf[..][0..n] == buf[..];
  }

  lemma OneField(f: Field)
    requires FieldOk(f)
    ensures FieldsOk([f])
  {
    hide FieldOk;
  }

  /** Load the first factor by all moduli, then convolve. */
  method Multiply(a: array<limb>, ao: nat, n1: nat, b: array<limb>, bo: nat, n2: nat, fs: seq<Field>, k: nat, dpl: nat,
                  nb: nat, ghost da: seq<int>, ghost db: seq<int>)
    returns (buf1: array<limb>)
    requires ao + n1 <= a.Length && bo + n2 <= b.Length && 1 <= k <= PROOT_2EXP && 1 <= dpl <= DPL_MAX
             && ModuliOf(fs, nb)
    requires DigitCount(n1, dpl) <= P2(k) && da == Digits(Val(a[ao..ao + n1]), dpl, DigitCount(n1, dpl), P2(k))
    requires DigitCount(n2, dpl) <= P2(k) && db == Digits(Val(b[bo..bo + n2]), dpl, DigitCount(n2, dpl), P2(k))
    ensures fresh(buf1) && Coefficients(buf1[..], Moduli(nb), Cyclic(da, db))
  {
    hide FieldOk, FieldsOk, Residues, P2, ConvRowsDone, RowsLeft, Moduli, Area, Cyclic, Digits, DigitCount, Val,
        Loaded, Coefficients;
    var n := P2(k);
    ghost var ms, d := Moduli(nb), Cyclic(da, db);
    AreaNamed(nb, n);
    buf1 := new limb[n * nb](i => 0);
    FieldCount(fs, nb);
    LimbToNtt(buf1, n, a, ao, n1, dpl, fs);
    LoadedRows(buf1[..], fs, nb, Val(a[ao..ao + n1]), dpl, n, DigitCount(n1, dpl), d);
    if k >= 14 {
      ConvRowsReduced(buf1, b, bo, n2, fs, k, dpl, nb, da, db);
    } else {
      var buf2 := new limb[n * nb](i => 0);
      ghost var t := buf1[..];
      LimbToNtt(buf2, n, b, bo, n2, dpl, fs);
      assert buf1[..] == t;
      LoadedRows(buf2[..], fs, nb, Val(b[bo..bo + n2]), dpl, n, DigitCount(n2, dpl), d);
      RowsLeftStart(buf2[..], ms, db, d, n);
      ConvRowsOf(buf1, buf2, fs, k, nb, da, db);
    }
    DigitsLength(da, db, n);
    ConvRowsEnd(buf1[..], ms, da, d, n);
  }

  lemma FieldCount(fs: seq<Field>, nb: nat)
    requires ModuliOf(fs, nb)
    ensures |fs| == nb && FieldsOk(fs)
  {}

  lemma DigitsLength(da: seq<int>, db: seq<int>, n: nat)
    requires |db| == n
    ensures |Cyclic(da, db)| == n
  {}

  lemma SizeParts(len: nat, k: nat, dpl: nat, nb: nat)
    requires SizeOk(len, k, dpl, nb)
    ensures 3 <= nb <= NB_MODS && 1 <= dpl <= 64 * nb && k <= PROOT_2EXP && 64 * len <= P2(k) * dpl
  {
    DigitCountIs(len, dpl);
    MulMono(DigitCount(len, dpl), P2(k), dpl);
  }

  /** fft_mul. */
  method FftMul(res: array<limb>, ro: nat, a: array<limb>, ao: nat, n1: nat, b: array<limb>, bo: nat, n2: nat)
    requires ro + n1 + n2 <= res.Length && ao + n1 <= a.Length && bo + n2 <= b.Length
    requires n1 >= 1 && n2 >= 1 && 3 <= n1 + n2 <= MAX_LEN
    modifies res
    ensures Val(res[ro..ro + n1 + n2]) == Mul(old(Val(a[ao..ao + n1])), old(Val(b[bo..bo + n2])))
    ensures Untouched(res, ro, ro + n1 + n2)
  {
    hide FieldOk, FieldsOk, P2, Pow, Moduli, MODS, Cyclic, Digits, DigitCount, Val, Coefficients, Eval, SizeOk,
        Product, CrInvOk, Bounded,
      ModuliOf;
    ghost var A, B := a[ao..ao + n1], b[bo..bo + n2];
    var all, crInv := NttStaticInit();
    var found, k, dpl, nb := GetFftSize(n1 + n2);
    SizeParts(n1 + n2, k, dpl, nb);
    var fs := all[NB_MODS - nb..];
    LastFields(all, nb);
    var fftLen := P2(k);
    ValBound(A);
    ValBound(B);
    ghost var D := ConvolutionLimit(k, dpl);
    ProductFacts(Val(A), n1, Val(B), n2, k, dpl, nb, D);
    ghost var da := Digits(Val(A), dpl, DigitCount(n1, dpl), fftLen);
    ghost var db := Digits(Val(B), dpl, DigitCount(n2, dpl), fftLen);
    var buf1 := Multiply(a, ao, n1, b, bo, n2, fs, k, dpl, nb, da, db);
    NttToLimb(res, ro, n1 + n2, buf1, fftLen, dpl, nb, crInv, Cyclic(da, db), D);
  }

  /** The largest coefficient of a convolution of 2^k digits of dpl bits. */
  ghost function ConvolutionLimit(k: nat, dpl: nat): (D: nat)
    ensures D == P2(k) * ((P2(dpl) - 1) * (P2(dpl) - 1))
  {
    MulMono(0, P2(dpl) - 1, P2(dpl) - 1);
    MulMono(0, P2(k), (P2(dpl) - 1) * (P2(dpl) - 1));
    P2(k) * ((P2(dpl) - 1) * (P2(dpl) - 1))
  }
}
