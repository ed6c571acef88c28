/** ntt_fft_partial, ntt_vec_mul and ntt_conv: the product of two polynomials through their values. */
module NttConv {
  import opened Limbs
  import opened LimbArith
  import opened Congruence
  import opened NttRoots
  import opened NttField
  import opened NttStage
  import opened NttTransform
  import opened NttInverse
  import opened NttRows
  import opened NttColumns
  import opened NttPartial

  // The column pass.

  /** The columns before the j-th are transformed, the others untouched. */
  ghost predicate ColumnsDone(v: seq<limb>, t: seq<limb>, n1: nat, n2: nat, om: int, w: int, d: nat, m: int, j: nat) {
    forall q: nat | q < n2 ::
      Lazy(ColumnOf(t, n1, n2, q), m)
      && if q < j then ColumnOk(ColumnOf(v, n1, n2, q), ColumnOf(t, n1, n2, q), om, Power(w, q), d, m)
         else ColumnOf(t, n1, n2, q) == ColumnOf(v, n1, n2, q)
  }

  lemma ColumnLazy(v: seq<limb>, n1: nat, n2: nat, q: nat, m: int)
    requires Lazy(v, m) && m > 0
    ensures Lazy(ColumnOf(v, n1, n2, q), m)
  {}

  lemma ColumnsStart(v: seq<limb>, n1: nat, n2: nat, om: int, w: int, d: nat, m: int)
    requires Lazy(v, m) && m > 0
    ensures ColumnsDone(v, v, n1, n2, om, w, d, m, 0)
  {
    hide Lazy, ColumnOf;
    forall q: nat | q < n2
      ensures Lazy(ColumnOf(v, n1, n2, q), m)
    {
      ColumnLazy(v, n1, n2, q, m);
    }
  }

  lemma ColumnsStep(v: seq<limb>, t: seq<limb>, t': seq<limb>, s: seq<limb>, s': seq<limb>, n1: nat, n2: nat, om: int,
                    w: int, d: nat, m: int, j: nat)
    requires ColumnsDone(v, t, n1, n2, om, w, d, m, j) && j + STRIP_LEN <= n2
    requires |s| == |s'| == Area(STRIP_LEN, n1)
    requires Gathered(t, s, n1, n2, j, n1) && StripDone(s, s', n1, om, w, j, d, m, STRIP_LEN)
    requires Scattered(t, t', s', n1, n2, j, n1, 0)
    ensures ColumnsDone(v, t', n1, n2, om, w, d, m, j + STRIP_LEN)
  {
    hide Lazy, ColumnOf, ColumnOk, Power, Area, Segment, Gathered, Scattered;
    forall q: nat | q < n2
      ensures Lazy(ColumnOf(t', n1, n2, q), m)
      ensures q < j + STRIP_LEN ==> ColumnOk(ColumnOf(v, n1, n2, q), ColumnOf(t', n1, n2, q), om, Power(w, q), d, m)
      ensures q >= j + STRIP_LEN ==> ColumnOf(t', n1, n2, q) == ColumnOf(v, n1, n2, q)
    {
      ScatteredColumn(t, t', s', n1, n2, j, q);
      if j <= q < j + STRIP_LEN {
        var l := q - j;
        SegmentSlice(s, n1, l);
        SegmentSlice(s', n1, l);
        GatheredColumn(t, s, n1, n2, j, l);
      }
    }
  }

  lemma CellOf(x: nat, n1: nat, n2: nat) returns (i: nat, q: nat)
    requires x < Area(n1, n2)
    ensures i < n1 && q < n2 && x == Area(i, n2) + q
  {
    i, q := x / n2, x % n2;
    if i >= n1 {
      MulMono(n1, i, n2);
    }
  }

  lemma ColumnsLazy(v: seq<limb>, t: seq<limb>, n1: nat, n2: nat, om: int, w: int, d: nat, m: int, j: nat)
    requires ColumnsDone(v, t, n1, n2, om, w, d, m, j) && |t| == Area(n1, n2)
    ensures Lazy(t, m)
  {
    hide Area, ColumnOk, Power;
    forall x | 0 <= x < |t|
      ensures t[x] < 2 * m
    {
      var i, q := CellOf(x, n1, n2);
      assert Lazy(ColumnOf(t, n1, n2, q), m);
      assert ColumnOf(t, n1, n2, q)[i] == t[x];
    }
  }

  lemma CellInRow(t: seq<int>, n1: nat, n2: nat, i: nat, j: nat)
    requires i < n1 && j < n2
    ensures Row(t, n2, i)[j] == Col(t, n1, n2, j)[i]
  {}

  lemma ColumnsForward(v: seq<limb>, t: seq<limb>, n1: nat, n2: nat, om: int, w: int, m: int)
    requires ColumnsDone(v, t, n1, n2, om, w, 0, m, n2)
    ensures Forward(Ints(v), Ints(t), n1, n2, w, om, m)
  {
    hide Area, Power, Eval, Cong, ColumnOf, Row, Col, Lazy;
    forall i: nat, j: nat | i < n1 && j < n2
      ensures ForwardAt(Ints(v), Ints(t), n1, n2, w, om, m, i, j)
    {
      ColumnInts(v, n1, n2, j);
      ColumnInts(t, n1, n2, j);
      CellInRow(Ints(t), n1, n2, i, j);
      assert ColumnOk(ColumnOf(v, n1, n2, j), ColumnOf(t, n1, n2, j), om, Power(w, j), 0, m);
      assert Ints(ColumnOf(t, n1, n2, j))[i] == ColumnOf(t, n1, n2, j)[i];
    }
  }

  lemma ColumnsBackward(v: seq<limb>, t: seq<limb>, n1: nat, n2: nat, om: int, w: int, m: int)
    requires ColumnsDone(v, t, n1, n2, om, w, 1, m, n2)
    ensures Backward(Ints(v), Ints(t), n1, n2, w, om, m)
  {
    hide Area, Power, Eval, Cong, ColumnOf, Row, Lazy;
    forall i: nat, j: nat | i < n1 && j < n2
      ensures Cong(Col(Ints(t), n1, n2, j)[i], Eval(Untwisted(Ints(v), n1, n2, w, j), Power(om, i)), m)
    {
      ColumnInts(v, n1, n2, j);
      ColumnInts(t, n1, n2, j);
      assert ColumnOk(ColumnOf(v, n1, n2, j), ColumnOf(t, n1, n2, j), om, Power(w, j), 1, m);
      TwistIs(v, n1, n2, w, j);
      assert Ints(ColumnOf(t, n1, n2, j))[i] == ColumnOf(t, n1, n2, j)[i];
    }
  }

  lemma TwistIs(v: seq<limb>, n1: nat, n2: nat, w: int, j: nat)
    ensures Twist(ColumnOf(v, n1, n2, j), Power(w, j)) == Untwisted(Ints(v), n1, n2, w, j)
  {
    hide Area, Power, ColumnOf, Col;
    ColumnInts(v, n1, n2, j);
    var a, b := Twist(ColumnOf(v, n1, n2, j), Power(w, j)), Untwisted(Ints(v), n1, n2, w, j);
    forall i | 0 <= i < n1
      ensures a[i] == b[i]
    {
      assert Ints(ColumnOf(v, n1, n2, j))[i] == ColumnOf(v, n1, n2, j)[i];
    }
  }

  /** What ntt_fft_partial with k2 > 0 does to the buffer. */
  ghost predicate PartialOk(v: seq<limb>, t: seq<limb>, f: Field, k1: nat, k2: nat, d: nat) {
    var w, om := Root(f, d, k1 + k2), Root(f, d, k1);
    Lazy(t, f.m) && |t| == |v| && |v| == Area(P2(k1), P2(k2))
    && (d == 0 ==> Forward(Ints(v), Ints(t), P2(k1), P2(k2), w, om, f.m))
    && (d == 1 ==> Backward(Ints(v), Ints(t), P2(k1), P2(k2), w, om, f.m))
  }

  lemma PartialDone(v: seq<limb>, t: seq<limb>, f: Field, k1: nat, k2: nat, d: nat)
    requires |t| == |v| == Area(P2(k1), P2(k2)) && d < 2
    requires ColumnsDone(v, t, P2(k1), P2(k2), Root(f, d, k1), Root(f, d, k1 + k2), d, f.m, P2(k2))
    ensures PartialOk(v, t, f, k1, k2, d)
  {
    hide Forward, Backward, ColumnsDone, Lazy, Root, P2, Area;
    var n1, n2, om, w, m := P2(k1), P2(k2), Root(f, d, k1), Root(f, d, k1 + k2), f.m;
    ColumnsLazy(v, t, n1, n2, om, w, d, m, n2);
    if d == 0 {
      ColumnsForward(v, t, n1, n2, om, w, m);
    } else {
      ColumnsBackward(v, t, n1, n2, om, w, m);
    }
  }

  lemma StripsDivide(k: nat)
    requires k >= 4
    ensures P2(k) % STRIP_LEN == 0
  {
    P2Add(k - 4, 4);
    assert P2(4) == 16;
    DivModUnique(P2(k), 16, P2(k - 4), 0);
  }

  /** ntt_fft_partial for k2 > 0: STRIP_LEN columns at a time. */
  method FftColumns(buf: array<limb>, o: nat, f: Field, k1: nat, k2: nat, d: nat)
    requires RootAt(f, d, k1) && RootAt(f, d, k1 + k2) && k1 <= TRIG_K_MAX && k2 >= 4
    requires o + Area(P2(k1), P2(k2)) <= buf.Length && Lazy(buf[o..o + Area(P2(k1), P2(k2))], f.m)
    modifies buf
    ensures PartialOk(old(buf[o..o + Area(P2(k1), P2(k2))]), buf[o..o + Area(P2(k1), P2(k2))], f, k1, k2, d)
    ensures Untouched(buf, o, o + Area(P2(k1), P2(k2)))
  {
    hide Cong, Power, RootAt, Lazy, P2, Area, Root, ColumnsDone, PartialOk;
    var n1, n2 := P2(k1), P2(k2);
    ghost var n, om, w := Area(n1, n2), Root(f, d, k1), Root(f, d, k1 + k2);
    ghost var v := buf[o..o + n];
    var tmp := new limb[n1](i => 0);
    AreaNamed(STRIP_LEN, n1);
    var strip := new limb[n1 * STRIP_LEN](i => 0);
    StripsDivide(k2);
    FirstTwiddle(f, d, k1, k1 + k2);
    ColumnsStart(v, n1, n2, om, w, d, f.m);
    var cMul: limb := 1;
    var j := 0;
    while j < n2
      invariant 0 <= j <= n2 && j % STRIP_LEN == 0 && cMul < f.m && Cong(cMul, Power(w, j), f.m)
      invariant ColumnsDone(v, buf[o..o + n], n1, n2, om, w, d, f.m, j)
      invariant Untouched(buf, o, o + n)
    {
      StripFits(j, n2);
      ghost var t := buf[o..o + n];
      cMul := FftStrip(buf, o, tmp, strip, f, k1, k2, d, j, cMul, v);
      j := j + STRIP_LEN;
    }
    PartialDone(v, buf[o..o + n], f, k1, k2, d);
  }

  lemma StripFits(j: nat, n: nat)
    requires j < n && j % STRIP_LEN == 0 && n % STRIP_LEN == 0
    ensures j + STRIP_LEN <= n && (j + STRIP_LEN) % STRIP_LEN == 0
  {}

  lemma AreaNamed(x: nat, y: nat)
    ensures Area(x, y) == y * x
  {}

  lemma FirstTwiddle(f: Field, d: nat, k1: nat, k: nat)
    requires RootAt(f, d, k)
    ensures f.m > 1 && Cong(1, Power(Root(f, d, k), 0), f.m) && d < 2
  {
    RootFacts(f, d, k);
    TrigStart(Root(f, d, k), f.m);
  }

  /** One strip: gather, transform, put back. */
  method FftStrip(buf: array<limb>, o: nat, tmp: array<limb>, strip: array<limb>, f: Field, k1: nat, k2: nat, d: nat,
                  j: nat, cMul0: limb, ghost v: seq<limb>)
    returns (cMul: limb)
    requires RootAt(f, d, k1) && RootAt(f, d, k1 + k2) && k1 <= TRIG_K_MAX && j + STRIP_LEN <= P2(k2)
    requires buf != tmp && buf != strip && tmp != strip && tmp.Length == P2(k1)
             && strip.Length == Area(STRIP_LEN, P2(k1))
    requires o + Area(P2(k1), P2(k2)) <= buf.Length
    requires cMul0 < f.m && Cong(cMul0, Power(Root(f, d, k1 + k2), j), f.m)
    requires ColumnsDone(v, buf[o..o + Area(P2(k1), P2(k2))], P2(k1), P2(k2), Root(f, d, k1), Root(f, d, k1 + k2), d,
                         f.m, j)
    modifies buf, tmp, strip
    ensures cMul < f.m && Cong(cMul, Power(Root(f, d, k1 + k2), j + STRIP_LEN), f.m)
    ensures ColumnsDone(v, buf[o..o + Area(P2(k1), P2(k2))], P2(k1), P2(k2), Root(f, d, k1), Root(f, d, k1 + k2), d,
                        f.m, j + STRIP_LEN)
    ensures Untouched(buf, o, o + Area(P2(k1), P2(k2)))
  {
    hide Cong, Power, RootAt, Lazy, P2, Area, Root, ColumnsDone, Gathered, StripDone, Scattered, Segment;
    var n1, n2 := P2(k1), P2(k2);
    ghost var n, om, w := Area(n1, n2), Root(f, d, k1), Root(f, d, k1 + k2);
    ghost var t := buf[o..o + n];
    Gather(buf, o, n1, n2, j, strip);
    ghost var s := strip[..];
    GatheredLazy(v, t, s, n1, n2, om, w, d, f.m, j);
    cMul := StripFft(strip, tmp, f, k1, d, k1 + k2, j, cMul0);
    ghost var s' := strip[..];
    assert buf[o..o + n] == t;
    Scatter(buf, o, n1, n2, j, strip);
    ColumnsStep(v, t, buf[o..o + n], s, s', n1, n2, om, w, d, f.m, j);
  }

  lemma GatheredLazy(v: seq<limb>, t: seq<limb>, s: seq<limb>, n1: nat, n2: nat, om: int, w: int, d: nat, m: int,
                     j: nat)
    requires ColumnsDone(v, t, n1, n2, om, w, d, m, j) && j + STRIP_LEN <= n2 && |s| == Area(STRIP_LEN, n1)
    requires Gathered(t, s, n1, n2, j, n1)
    ensures forall q: nat | q < STRIP_LEN :: Lazy(Segment(s, n1, q), m)
  {
    hide Lazy, ColumnOf, ColumnOk, Power, Area, Segment, Gathered;
    forall q: nat | q < STRIP_LEN
      ensures Lazy(Segment(s, n1, q), m)
    {
      SegmentSlice(s, n1, q);
      GatheredColumn(t, s, n1, n2, j, q);
      assert Lazy(ColumnOf(t, n1, n2, j + q), m);
    }
  }

  // Pointwise multiplication.

  ghost predicate Products(a: seq<limb>, b: seq<limb>, t: seq<limb>, s: int, m: int) {
    |t| == |a| == |b| && forall i :: 0 <= i < |a| ==> Cong(t[i], ((a[i] as int) * (b[i] as int)) * s, m)
  }

  /** ntt_vec_mul: products scaled by the inverse of the length of the whole transform. */
  method VecMul(tab1: array<limb>, o1: nat, tab2: array<limb>, o2: nat, n: nat, f: Field, kTot: nat)
    requires FieldOk(f) && kTot <= PROOT_2EXP && tab1 != tab2 && o1 + n <= tab1.Length && o2 + n <= tab2.Length
    requires Lazy(tab1[o1..o1 + n], f.m) && Lazy(tab2[o2..o2 + n], f.m) && |f.lenInv| == PROOT_2EXP + 1
    modifies tab1
    ensures Products(old(tab1[o1..o1 + n]), tab2[o2..o2 + n], tab1[o1..o1 + n], f.lenInv[kTot].0, f.m)
    ensures Lazy(tab1[o1..o1 + n], f.m) && Untouched(tab1, o1, o1 + n)
  {
    hide Cong, Mul, InvOk, BarrettOk, DirectionOk, Lazy;
    var m, mInv := f.m, f.mInv;
    BarrettModulus(m, mInv);
    var norm, normInv := f.lenInv[kTot].0, f.lenInv[kTot].1;
    NormOk(f, kTot);
    ghost var a, b := tab1[o1..o1 + n], tab2[o2..o2 + n];
    var i := 0;
    while i < n
      invariant 0 <= i <= n && tab2[o2..o2 + n] == b
      invariant forall k :: i <= k < n ==> tab1[o1 + k] == a[k]
      invariant
        var t := tab1[o1..o1 + n];
        forall k :: 0 <= k < i ==> t[k] < 2 * m && Cong(t[k], ((a[k] as int) * (b[k] as int)) * norm, m)
      invariant Untouched(tab1, o1, o1 + n)
    {
      LazyAt(a, m, i);
      LazyAt(b, m, i);
      assert tab1[o1 + i] == a[i] && tab2[o2 + i] == b[i];
      var x := tab1[o1 + i];
      if x >= m {
        x := x - m;
      }
      ProductReducible(b[i], x, m);
      var y := MulModFast(x, tab2[o2 + i], m, mInv);
      var z := MulModFast3(y, norm, m, normInv);
      ProductCong(a[i], x, b[i], y, norm, z, m);
      ghost var t: seq<limb> := tab1[o1..o1 + n];
      tab1[o1 + i] := z;
      assert tab1[o1..o1 + n] == t[i := z];
      i := i + 1;
    }
    TwiceLazy(tab1[o1..o1 + n], m);
  }

  lemma TwiceLazy(t: seq<limb>, m: int)
    requires forall k :: 0 <= k < |t| ==> t[k] < 2 * m
    ensures Lazy(t, m)
  {}

  lemma NormOk(f: Field, k: nat)
    requires FieldOk(f) && k <= PROOT_2EXP
    ensures |f.lenInv| == PROOT_2EXP + 1 && InvOk(f.lenInv[k].0, f.lenInv[k].1, f.m)
    ensures Cong(Mul(f.lenInv[k].0, P2(k)), 1, f.m)
  {}

  lemma ProductCong(a: int, x: int, b: int, y: int, s: int, z: int, m: int)
    requires m > 0 && (x == a || x == a - m) && Cong(y, Mul(x, b), m) && Cong(z, Mul(y, s), m)
    ensures Cong(z, (a * b) * s, m)
  {
    CongSelf(a, m);
    CongMul(x, a, b, b, m);
    CongMul(y, a * b, s, s, m);
  }

  // Convolution.

  /** The factor a convolution of length 2^k carries when the whole transform has length 2^kTot. */
  function Factor(f: Field, k: nat, kTot: nat): int {
    if kTot < |f.lenInv| then Mul(P2(k), f.lenInv[kTot].0) else 0
  }

  lemma FactorSplit(f: Field, k1: nat, k2: nat, kTot: nat)
    ensures P2(k1) * Factor(f, k2, kTot) == Factor(f, k1 + k2, kTot)
  {
    P2Add(k1, k2);
    if kTot < |f.lenInv| {
      hide P2;
      MulAssoc(P2(k1), P2(k2), f.lenInv[kTot].0);
    }
  }

  /** The roots of the two directions are inverse to each other. */
  lemma RootsInverse(f: Field, k: nat)
    requires RootAt(f, 0, k)
    ensures InverseRoots(Root(f, 0, k), Root(f, 1, k), k, f.m) && Cong(Root(f, 0, k) * Root(f, 1, k), 1, f.m)
  {
    hide Power, P2, DirectionOk, LengthsOk;
    RootFacts(f, 0, k);
    RootFacts(f, 1, k);
    assert Cong(Mul(f.pow[0][k], f.pow[1][k]), 1, f.m);
  }

  /** The product of two short polynomials: transform, multiply, transform back. */
  lemma LeafConv(a: seq<int>, b: seq<int>, A: seq<limb>, B: seq<limb>, p: seq<limb>, c: seq<limb>, f: Field, k: nat,
                 kTot: nat)
    requires RootAt(f, 0, k) && kTot < |f.lenInv| && |a| == |b| == P2(k)
    requires Transformed(a, A, Root(f, 0, k), f.m) && Transformed(b, B, Root(f, 0, k), f.m)
    requires Products(A, B, p, f.lenInv[kTot].0, f.m) && Transformed(Ints(p), c, Root(f, 1, k), f.m)
    ensures ConvOk(a, b, Ints(c), Root(f, 0, k), P2(k), Factor(f, k, kTot), f.m)
  {
    hide Power, P2, RootAt, Root, Cong, Eval;
    RootsInverse(f, k);
    var w, v, m := Root(f, 0, k), Root(f, 1, k), f.m;
    forall q: nat | q < P2(k)
      ensures ConvAt(a, b, Ints(c), Power(w, q), Factor(f, k, kTot), m)
    {
      Inversion(Ints(p), Ints(c), w, v, k, q, m);
      LeafArith(Eval(Ints(c), Power(w, q)), P2(k), p[q], A[q], B[q], f.lenInv[kTot].0, Eval(a, Power(w, q)),
                Eval(b, Power(w, q)), m);
    }
  }

  lemma LeafArith(c: int, n: int, p: int, x: int, y: int, s: int, ea: int, eb: int, m: int)
    requires Cong(c, n * p, m) && Cong(p, (x * y) * s, m) && Cong(x, ea, m) && Cong(y, eb, m)
    ensures Cong(c, Mul(n, s) * (ea * eb), m)
  {
    CongMul(x, ea, y, eb, m);
    CongMul(x * y, ea * eb, s, s, m);
    CongMul(n, n, p, (ea * eb) * s, m);
    assert n * ((ea * eb) * s) == n * s * (ea * eb);
  }

  lemma RowSlice(v: seq<limb>, n2: nat, i: nat, n1: nat)
    requires |v| == Area(n1, n2) && i < n1
    ensures Area(i, n2) + n2 <= |v| && Row(Ints(v), n2, i) == Ints(v[Area(i, n2)..Area(i, n2) + n2])
  {
    AreaRoom(i, n1, n2);
    hide Area;
    var x, y := Row(Ints(v), n2, i), Ints(v[Area(i, n2)..Area(i, n2) + n2]);
    forall j | 0 <= j < n2
      ensures x[j] == y[j]
    {
      assert Ints(v)[Area(i, n2) + j] == v[Area(i, n2) + j];
    }
  }

  /** Rows before the i-th are convolved, the others untouched. */
  ghost predicate RowsDone(A: seq<limb>, B: seq<limb>, u: seq<limb>, t: seq<limb>, n1: nat, n2: nat, w: int, s: int,
                           m: int, i: nat) {
    && |u| == |t| == |A| == |B| && Lazy(u, m) && Lazy(t, m)
    && forall r: nat | r < n1 ::
      if r < i then ConvOk(Row(Ints(A), n2, r), Row(Ints(B), n2, r), Row(Ints(u), n2, r), w, n2, s, m)
      else Row(Ints(u), n2, r) == Row(Ints(A), n2, r) && Row(Ints(t), n2, r) == Row(Ints(B), n2, r)
  }

  lemma RowsStep(A: seq<limb>, B: seq<limb>, u: seq<limb>, t: seq<limb>, u': seq<limb>, t': seq<limb>, n1: nat, n2: nat,
                 w: int, s: int, m: int, i: nat)
    requires RowsDone(A, B, u, t, n1, n2, w, s, m, i) && i < n1 && |u'| == |t'| == |u| && |u| == Area(n1, n2)
    requires ConvOk(Row(Ints(u), n2, i), Row(Ints(t), n2, i), Row(Ints(u'), n2, i), w, n2, s, m)
    requires forall x :: 0 <= x < |u| && !(Area(i, n2) <= x < Area(i, n2) + n2) ==> u'[x] == u[x] && t'[x] == t[x]
    requires Lazy(u', m) && Lazy(t', m)
    ensures RowsDone(A, B, u', t', n1, n2, w, s, m, i + 1)
  {
    hide ConvOk, Lazy, Area;
    forall r: nat | r < n1 && r != i
      ensures Row(Ints(u'), n2, r) == Row(Ints(u), n2, r) && Row(Ints(t'), n2, r) == Row(Ints(t), n2, r)
    {
      RowKeeps(u, u', n1, n2, r, i);
      RowKeeps(t, t', n1, n2, r, i);
    }
  }

  lemma RowKeeps(u: seq<limb>, u': seq<limb>, n1: nat, n2: nat, r: nat, i: nat)
    requires r != i && |u'| == |u|
    requires forall x :: 0 <= x < |u| && !(Area(i, n2) <= x < Area(i, n2) + n2) ==> u'[x] == u[x]
    ensures Row(Ints(u'), n2, r) == Row(Ints(u), n2, r)
  {
    if r < i {
      AreaRoom(r, i, n2);
    } else {
      AreaRoom(i, r, n2);
    }
    hide Area;
    var x, y := Row(Ints(u'), n2, r), Row(Ints(u), n2, r);
    forall j | 0 <= j < n2
      ensures x[j] == y[j]
    {
      var k := Area(r, n2) + j;
      if k < |u| {
        assert !(Area(i, n2) <= k < Area(i, n2) + n2);
        assert u'[k] == u[k];
        assert Ints(u')[k] == u'[k] && Ints(u)[k] == u[k];
      }
      assert x[j] == AtInt(Ints(u'), k) && y[j] == AtInt(Ints(u), k);
    }
  }

  lemma RowsStart(A: seq<limb>, B: seq<limb>, n1: nat, n2: nat, w: int, s: int, m: int)
    requires |A| == |B| && Lazy(A, m) && Lazy(B, m)
    ensures RowsDone(A, B, A, B, n1, n2, w, s, m, 0)
  {
    hide Lazy;
  }

  /** A part of the buffer replaced by values in range. */
  lemma LazyPatch(u: seq<limb>, u': seq<limb>, lo: nat, hi: nat, m: int)
    requires Lazy(u, m) && |u'| == |u| && lo <= hi <= |u| && Lazy(u'[lo..hi], m)
    requires forall x :: 0 <= x < |u| && !(lo <= x < hi) ==> u'[x] == u[x]
    ensures Lazy(u', m)
  {
    forall x | 0 <= x < |u'|
      ensures u'[x] < 2 * m
    {
      if lo <= x < hi {
        assert u'[lo..hi][x - lo] == u'[x];
      }
    }
  }

  /** The rows convolved give the whole convolved. */
  lemma SplitConv(a: seq<limb>, b: seq<limb>, A: seq<limb>, B: seq<limb>, C: seq<limb>, t: seq<limb>, c: seq<limb>,
                  f: Field, k1: nat, k2: nat, kTot: nat)
    requires RootAt(f, 0, k1) && RootAt(f, 0, k2) && RootAt(f, 0, k1 + k2) && |a| == |b| == |c| == P2(k1 + k2)
    requires PartialOk(a, A, f, k1, k2, 0) && PartialOk(b, B, f, k1, k2, 0) && PartialOk(C, c, f, k1, k2, 1)
    requires RowsDone(A, B, C, t, P2(k1), P2(k2), Root(f, 0, k2), Factor(f, k2, kTot), f.m, P2(k1))
    ensures ConvOk(Ints(a), Ints(b), Ints(c), Root(f, 0, k1 + k2), P2(k1 + k2), Factor(f, k1 + k2, kTot), f.m)
  {
    var k := k1 + k2;
    SplitRoots(f, k1, k2);
    FactorSplit(f, k1, k2, kTot);
    P2Area(k1, k2);
    hide Power, P2, RootAt, Root, Cong, Eval, Forward, Backward, Area, Factor, ConvAt;
    var w, n1, n2, s := Root(f, 0, k), P2(k1), P2(k2), Factor(f, k2, kTot);
    forall q: nat | q < P2(k)
      ensures ConvAt(Ints(a), Ints(b), Ints(c), Power(w, q), Factor(f, k, kTot), f.m)
    {
      var r, i := CellOf(q, n2, n1);
      AreaSwap(n1, r);
      ConvRows(Ints(a), Ints(b), Ints(c), Ints(A), Ints(B), Ints(C), k1, n2, w, Root(f, 1, k), Root(f, 0, k1),
               Root(f, 1, k1), Root(f, 0, k2), s, f.m, i, r);
    }
  }

  lemma AreaSwap(x: nat, y: nat)
    ensures Area(x, y) == Area(y, x)
  {}

  lemma P2Area(k1: nat, k2: nat)
    ensures Area(P2(k1), P2(k2)) == Area(P2(k2), P2(k1)) == P2(k1 + k2)
  {
    P2Add(k1, k2);
    AreaSwap(P2(k1), P2(k2));
  }

  lemma SplitRoots(f: Field, k1: nat, k2: nat)
    requires RootAt(f, 0, k1) && RootAt(f, 0, k2) && RootAt(f, 0, k1 + k2)
    ensures InverseRoots(Root(f, 0, k1), Root(f, 1, k1), k1, f.m)
    ensures Cong(Root(f, 0, k1 + k2) * Root(f, 1, k1 + k2), 1, f.m)
    ensures Cong(Root(f, 0, k1), Power(Root(f, 0, k1 + k2), P2(k2)), f.m)
    ensures Cong(Root(f, 0, k2), Power(Root(f, 0, k1 + k2), P2(k1)), f.m)
    ensures Cong(Power(Root(f, 0, k2), P2(k2)), 1, f.m)
  {
    hide Power, P2, Cong, Root, DirectionOk, LengthsOk, BarrettOk;
    RootsInverse(f, k1);
    RootsInverse(f, k1 + k2);
    RootPower(f, 0, k1 + k2, k1);
    RootPower(f, 0, k1 + k2, k2);
    RootFacts(f, 0, k2);
    FullTurn(Root(f, 0, k2), k2, f.m);
  }

  /** ntt_conv: the second buffer is used up. Long transforms are split into columns and rows. */
  method NttConv(buf1: array<limb>, o1: nat, buf2: array<limb>, o2: nat, f: Field, k: nat, kTot: nat)
    requires RootAt(f, 0, k) && kTot <= PROOT_2EXP && buf1 != buf2 && o1 + P2(k) <= buf1.Length
             && o2 + P2(k) <= buf2.Length
    requires Lazy(buf1[o1..o1 + P2(k)], f.m) && Lazy(buf2[o2..o2 + P2(k)], f.m)
    modifies buf1, buf2
    ensures ConvOk(Ints(old(buf1[o1..o1 + P2(k)])), Ints(old(buf2[o2..o2 + P2(k)])), Ints(buf1[o1..o1 + P2(k)]),
                   Root(f, 0, k), P2(k), Factor(f, k, kTot), f.m)
    ensures Lazy(buf1[o1..o1 + P2(k)], f.m) && Lazy(buf2[o2..o2 + P2(k)], f.m)
    ensures Untouched(buf1, o1, o1 + P2(k)) && Untouched(buf2, o2, o2 + P2(k))
    decreases k, 1
  {
    if k <= TRIG_K_MAX {
      ConvLeaf(buf1, o1, buf2, o2, f, k, kTot);
    } else {
      var k1 := if k / 2 < TRIG_K_MAX then k / 2 else TRIG_K_MAX;
      ConvSplit(buf1, o1, buf2, o2, f, k1, k - k1, kTot);
    }
  }

  method ConvLeaf(buf1: array<limb>, o1: nat, buf2: array<limb>, o2: nat, f: Field, k: nat, kTot: nat)
    requires RootAt(f, 0, k) && k <= TRIG_K_MAX && kTot <= PROOT_2EXP
    requires buf1 != buf2 && o1 + P2(k) <= buf1.Length && o2 + P2(k) <= buf2.Length
    requires Lazy(buf1[o1..o1 + P2(k)], f.m) && Lazy(buf2[o2..o2 + P2(k)], f.m)
    modifies buf1, buf2
    ensures ConvOk(Ints(old(buf1[o1..o1 + P2(k)])), Ints(old(buf2[o2..o2 + P2(k)])), Ints(buf1[o1..o1 + P2(k)]),
                   Root(f, 0, k), P2(k), Factor(f, k, kTot), f.m)
    ensures Lazy(buf1[o1..o1 + P2(k)], f.m) && Lazy(buf2[o2..o2 + P2(k)], f.m)
    ensures Untouched(buf1, o1, o1 + P2(k)) && Untouched(buf2, o2, o2 + P2(k))
  {
    NormOk(f, kTot);
    hide Cong, Power, FieldOk, Lazy, P2, Root, Transformed, Products, ConvOk, Factor, InvOk, Mul, RootAt, Ints;
    var n := P2(k);
    var tmp := new limb[n](i => 0);
    ghost var a, b := buf1[o1..o1 + n], buf2[o2..o2 + n];
    TransformBoth(buf1, o1, buf2, o2, tmp, f, k);
    ghost var A, B := buf1[o1..o1 + n], buf2[o2..o2 + n];
    VecMul(buf1, o1, buf2, o2, n, f, kTot);
    ghost var p := buf1[o1..o1 + n];
    NttFft(buf1, o1, tmp, f, k, 1);
    assert buf2[o2..o2 + n] == B;
    LeafConv(Ints(a), Ints(b), A, B, p, buf1[o1..o1 + n], f, k, kTot);
  }

  /** The two forward transforms. */
  method TransformBoth(buf1: array<limb>, o1: nat, buf2: array<limb>, o2: nat, tmp: array<limb>, f: Field, k: nat)
    requires RootAt(f, 0, k) && k <= TRIG_K_MAX && buf1 != buf2 && tmp != buf1 && tmp != buf2 && tmp.Length == P2(k)
    requires o1 + P2(k) <= buf1.Length && o2 + P2(k) <= buf2.Length
    requires Lazy(buf1[o1..o1 + P2(k)], f.m) && Lazy(buf2[o2..o2 + P2(k)], f.m)
    modifies buf1, buf2, tmp
    ensures Transformed(Ints(old(buf1[o1..o1 + P2(k)])), buf1[o1..o1 + P2(k)], Root(f, 0, k), f.m)
    ensures Transformed(Ints(old(buf2[o2..o2 + P2(k)])), buf2[o2..o2 + P2(k)], Root(f, 0, k), f.m)
    ensures Lazy(buf1[o1..o1 + P2(k)], f.m) && Lazy(buf2[o2..o2 + P2(k)], f.m)
    ensures Untouched(buf1, o1, o1 + P2(k)) && Untouched(buf2, o2, o2 + P2(k))
  {
    hide Cong, Power, FieldOk, Lazy, P2, Root, Transformed, RootAt, Ints;
    NttFft(buf1, o1, tmp, f, k, 0);
    ghost var A := buf1[o1..o1 + P2(k)];
    NttFft(buf2, o2, tmp, f, k, 0);
    assert buf1[o1..o1 + P2(k)] == A;
  }

  method ConvSplit(buf1: array<limb>, o1: nat, buf2: array<limb>, o2: nat, f: Field, k1: nat, k2: nat, kTot: nat)
    requires RootAt(f, 0, k1 + k2) && 1 <= k1 <= TRIG_K_MAX && k2 >= 4 && kTot <= PROOT_2EXP
    requires buf1 != buf2 && o1 + P2(k1 + k2) <= buf1.Length && o2 + P2(k1 + k2) <= buf2.Length
    requires Lazy(buf1[o1..o1 + P2(k1 + k2)], f.m) && Lazy(buf2[o2..o2 + P2(k1 + k2)], f.m)
    modifies buf1, buf2
    ensures ConvOk(Ints(old(buf1[o1..o1 + P2(k1 + k2)])), Ints(old(buf2[o2..o2 + P2(k1 + k2)])),
                   Ints(buf1[o1..o1 + P2(k1 + k2)]), Root(f, 0, k1 + k2), P2(k1 + k2), Factor(f, k1 + k2, kTot), f.m)
    ensures Lazy(buf1[o1..o1 + P2(k1 + k2)], f.m) && Lazy(buf2[o2..o2 + P2(k1 + k2)], f.m)
    ensures Untouched(buf1, o1, o1 + P2(k1 + k2)) && Untouched(buf2, o2, o2 + P2(k1 + k2))
    decreases k1 + k2, 0
  {
    P2Area(k1, k2);
    hide Cong, Power, DirectionOk, LengthsOk, BarrettOk, Lazy, P2, Root, ConvOk, Factor, PartialOk, RowsDone, Area;
    var n := P2(k1 + k2);
    ghost var a, b := buf1[o1..o1 + n], buf2[o2..o2 + n];
    FftColumns(buf1, o1, f, k1, k2, 0);
    ghost var A := buf1[o1..o1 + n];
    FftColumns(buf2, o2, f, k1, k2, 0);
    assert buf1[o1..o1 + n] == A;
    ghost var B := buf2[o2..o2 + n];
    PartialLazy(a, A, f, k1, k2, 0);
    PartialLazy(b, B, f, k1, k2, 0);
    ConvAllRows(buf1, o1, buf2, o2, f, k1, k2, kTot, A, B);
    ghost var C, t := buf1[o1..o1 + n], buf2[o2..o2 + n];
    RowsLazy(A, B, C, t, P2(k1), P2(k2), Root(f, 0, k2), Factor(f, k2, kTot), f.m, P2(k1));
    FftColumns(buf1, o1, f, k1, k2, 1);
    assert buf2[o2..o2 + n] == t;
    ghost var c := buf1[o1..o1 + n];
    PartialLazy(C, c, f, k1, k2, 1);
    SplitConv(a, b, A, B, C, t, c, f, k1, k2, kTot);
  }

  lemma PartialLazy(v: seq<limb>, t: seq<limb>, f: Field, k1: nat, k2: nat, d: nat)
    requires PartialOk(v, t, f, k1, k2, d)
    ensures Lazy(t, f.m)
  {}

  lemma RowsLazy(A: seq<limb>, B: seq<limb>, u: seq<limb>, t: seq<limb>, n1: nat, n2: nat, w: int, s: int, m: int,
                 i: nat)
    requires RowsDone(A, B, u, t, n1, n2, w, s, m, i)
    ensures Lazy(u, m) && Lazy(t, m)
  {}

  /** The recursive calls, row by row. */
  method ConvAllRows(buf1: array<limb>, o1: nat, buf2: array<limb>, o2: nat, f: Field, k1: nat, k2: nat, kTot: nat,
                     ghost A: seq<limb>, ghost B: seq<limb>)
    requires RootAt(f, 0, k1 + k2) && k1 >= 1 && k2 >= 1 && kTot <= PROOT_2EXP && buf1 != buf2
    requires o1 + P2(k1 + k2) <= buf1.Length && o2 + P2(k1 + k2) <= buf2.Length
    requires A == buf1[o1..o1 + P2(k1 + k2)] && B == buf2[o2..o2 + P2(k1 + k2)] && Lazy(A, f.m) && Lazy(B, f.m)
    modifies buf1, buf2
    ensures RowsDone(A, B, buf1[o1..o1 + P2(k1 + k2)], buf2[o2..o2 + P2(k1 + k2)], P2(k1), P2(k2), Root(f, 0, k2),
                     Factor(f, k2, kTot), f.m, P2(k1))
    ensures Untouched(buf1, o1, o1 + P2(k1 + k2)) && Untouched(buf2, o2, o2 + P2(k1 + k2))
    decreases k1 + k2, 0, 1
  {
    P2Area(k1, k2);
    hide Cong, Power, DirectionOk, LengthsOk, BarrettOk, Lazy, P2, Root, ConvOk, Factor, RowsDone, Area;
    var n, n1, n2 := P2(k1 + k2), P2(k1), P2(k2);
    RowsStart(A, B, n1, n2, Root(f, 0, k2), Factor(f, k2, kTot), f.m);
    var i, row := 0, 0;
    AreaZero(n2);
    while i < n1
      invariant 0 <= i <= n1 && row == Area(i, n2)
      invariant RowsDone(A, B, buf1[o1..o1 + n], buf2[o2..o2 + n], n1, n2, Root(f, 0, k2), Factor(f, k2, kTot), f.m, i)
      invariant Untouched(buf1, o1, o1 + n) && Untouched(buf2, o2, o2 + n)
    {
      ConvRow(buf1, o1, buf2, o2, f, k1, k2, kTot, i, row, A, B);
      AreaNext(i, n2);
      row := row + n2;
      i := i + 1;
    }
  }

  method ConvRow(buf1: array<limb>, o1: nat, buf2: array<limb>, o2: nat, f: Field, k1: nat, k2: nat, kTot: nat, i: nat,
                 row: nat, ghost A: seq<limb>, ghost B: seq<limb>)
    requires RootAt(f, 0, k1 + k2) && k1 >= 1 && k2 >= 1 && kTot <= PROOT_2EXP && buf1 != buf2
    requires o1 + P2(k1 + k2) <= buf1.Length && o2 + P2(k1 + k2) <= buf2.Length && i < P2(k1) && row == Area(i, P2(k2))
    requires RowsDone(A, B, buf1[o1..o1 + P2(k1 + k2)], buf2[o2..o2 + P2(k1 + k2)], P2(k1), P2(k2), Root(f, 0, k2),
                      Factor(f, k2, kTot), f.m, i)
    modifies buf1, buf2
    ensures RowsDone(A, B, buf1[o1..o1 + P2(k1 + k2)], buf2[o2..o2 + P2(k1 + k2)], P2(k1), P2(k2), Root(f, 0, k2),
                     Factor(f, k2, kTot), f.m, i + 1)
    ensures Untouched(buf1, o1, o1 + P2(k1 + k2)) && Untouched(buf2, o2, o2 + P2(k1 + k2))
    decreases k1 + k2, 0, 0
  {
    P2Area(k1, k2);
    hide Cong, Power, DirectionOk, LengthsOk, BarrettOk, Lazy, P2, Root, ConvOk, Factor, RowsDone, Area;
    var n, n1, n2 := P2(k1 + k2), P2(k1), P2(k2);
    ghost var w, s, m := Root(f, 0, k2), Factor(f, k2, kTot), f.m;
    ghost var u, t := buf1[o1..o1 + n], buf2[o2..o2 + n];
    RowsLazy(A, B, u, t, n1, n2, w, s, m, i);
    RowSlice(u, n2, i, n1);
    RowSlice(t, n2, i, n1);
    LazySlice(u, m, row, row + n2);
    LazySlice(t, m, row, row + n2);
    Slice(buf1, o1, n, row, row + n2);
    Slice(buf2, o2, n, row, row + n2);
    NttConv(buf1, o1 + row, buf2, o2 + row, f, k2, kTot);
    ghost var u', t' := buf1[o1..o1 + n], buf2[o2..o2 + n];
    Slice(buf1, o1, n, row, row + n2);
    Slice(buf2, o2, n, row, row + n2);
    RowSlice(u', n2, i, n1);
    LazyPatch(u, u', row, row + n2, m);
    LazyPatch(t, t', row, row + n2, m);
    RowsStep(A, B, u, t, u', t', n1, n2, w, s, m, i);
  }
}
