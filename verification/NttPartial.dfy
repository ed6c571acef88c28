/** ntt_fft_partial: all columns of a buffer, strip by strip. */
module NttPartial {
  import opened Limbs
  import opened LimbArith
  import opened Congruence
  import opened NttField
  import opened NttStage
  import opened NttTransform
  import opened NttColumns

  // Putting a strip back.

  /** Cell (k, q) after the rows before i, and l columns of row i, were written. */
  ghost predicate ScatterAt(v: seq<limb>, v': seq<limb>, b: seq<limb>, n1: nat, n2: nat, j: nat, i: nat, l: nat,
                            k: nat, q: nat) {
    AtLimb(v', Area(k, n2) + q)
    == if (k < i || (k == i && q < j + l)) && j <= q < j + STRIP_LEN then AtLimb(b, Area(q - j, n1) + k)
       else AtLimb(v, Area(k, n2) + q)
  }

  ghost predicate Scattered(v: seq<limb>, v': seq<limb>, b: seq<limb>, n1: nat, n2: nat, j: nat, i: nat, l: nat) {
    forall k: nat, q: nat | k < n1 && q < n2 :: ScatterAt(v, v', b, n1, n2, j, i, l, k, q)
  }

  lemma ScatterStep(v: seq<limb>, t: seq<limb>, t': seq<limb>, b: seq<limb>, n1: nat, n2: nat, j: nat, i: nat, l: nat)
    requires Scattered(v, t, b, n1, n2, j, i, l) && i < n1 && l < STRIP_LEN && j + STRIP_LEN <= n2
    requires Area(i, n2) + j + l < |t| && Area(l, n1) + i < |b|
    requires t' == t[Area(i, n2) + j + l := b[Area(l, n1) + i]]
    ensures Scattered(v, t', b, n1, n2, j, i, l + 1)
  {
    hide Area;
    var l' := l + 1;
    forall k: nat, q: nat | k < n1 && q < n2
      ensures ScatterAt(v, t', b, n1, n2, j, i, l', k, q)
    {
      assert ScatterAt(v, t, b, n1, n2, j, i, l, k, q);
      if k != i || q != j + l {
        CellsDiffer(k, q, i, j + l, n2);
      }
    }
  }

  lemma ScatterRow(v: seq<limb>, t: seq<limb>, b: seq<limb>, n1: nat, n2: nat, j: nat, i: nat)
    requires Scattered(v, t, b, n1, n2, j, i, STRIP_LEN)
    ensures Scattered(v, t, b, n1, n2, j, i + 1, 0)
  {
    hide Area;
    var i' := i + 1;
    forall k: nat, q: nat | k < n1 && q < n2
      ensures ScatterAt(v, t, b, n1, n2, j, i', 0, k, q)
    {
      assert ScatterAt(v, t, b, n1, n2, j, i, STRIP_LEN, k, q);
    }
  }

  lemma ScatterStart(v: seq<limb>, b: seq<limb>, n1: nat, n2: nat, j: nat)
    ensures Scattered(v, v, b, n1, n2, j, 0, 0)
  {
    hide Area;
  }

  method Scatter(buf: array<limb>, o: nat, n1: nat, n2: nat, j: nat, strip: array<limb>)
    requires buf != strip && o + Area(n1, n2) <= buf.Length && strip.Length == Area(STRIP_LEN, n1)
             && j + STRIP_LEN <= n2
    modifies buf
    ensures Scattered(old(buf[o..o + Area(n1, n2)]), buf[o..o + Area(n1, n2)], strip[..], n1, n2, j, n1, 0)
    ensures Untouched(buf, o, o + Area(n1, n2))
  {
    hide Area, Scattered;
    ghost var n := Area(n1, n2);
    ghost var v, b := buf[o..o + n], strip[..];
    ScatterStart(v, b, n1, n2, j);
    var i, row := 0, 0;
    AreaZero(n2);
    while i < n1
      invariant 0 <= i <= n1 && row == Area(i, n2) && strip[..] == b
      invariant Scattered(v, buf[o..o + n], b, n1, n2, j, i, 0)
      invariant Untouched(buf, o, o + n)
    {
      var l, col := 0, 0;
      AreaZero(n1);
      while l < STRIP_LEN
        invariant 0 <= l <= STRIP_LEN && col == Area(l, n1) && strip[..] == b
        invariant Scattered(v, buf[o..o + n], b, n1, n2, j, i, l)
        invariant Untouched(buf, o, o + n)
      {
        CellBound(l, STRIP_LEN, i, n1);
        CellBound(i, n1, j + l, n2);
        ghost var t: seq<limb> := buf[o..o + n];
        buf[o + row + (j + l)] := strip[i + col];
        assert b[col + i] == strip[i + col];
        assert buf[o..o + n] == t[row + j + l := b[col + i]];
        ScatterStep(v, t, buf[o..o + n], b, n1, n2, j, i, l);
        AreaNext(l, n1);
        col := col + n1;
        l := l + 1;
      }
      ScatterRow(v, buf[o..o + n], b, n1, n2, j, i);
      AreaNext(i, n2);
      row := row + n2;
      i := i + 1;
    }
  }

  /** Columns inside the strip come from it, the others stay. */
  lemma ScatteredColumn(v: seq<limb>, v': seq<limb>, b: seq<limb>, n1: nat, n2: nat, j: nat, q: nat)
    requires Scattered(v, v', b, n1, n2, j, n1, 0) && q < n2 && |b| == Area(STRIP_LEN, n1)
    ensures !(j <= q < j + STRIP_LEN) ==> ColumnOf(v', n1, n2, q) == ColumnOf(v, n1, n2, q)
    ensures j <= q < j + STRIP_LEN ==>
              Area(q - j, n1) + n1 <= |b| && ColumnOf(v', n1, n2, q) == b[Area(q - j, n1)..Area(q - j, n1) + n1]
  {
    hide Area;
    var c := ColumnOf(v', n1, n2, q);
    if j <= q < j + STRIP_LEN {
      AreaRoom(q - j, STRIP_LEN, n1);
      var s := b[Area(q - j, n1)..Area(q - j, n1) + n1];
      forall k | 0 <= k < n1
        ensures c[k] == s[k]
      {
        assert ScatterAt(v, v', b, n1, n2, j, n1, 0, k, q);
      }
    } else {
      var d := ColumnOf(v, n1, n2, q);
      forall k | 0 <= k < n1
        ensures c[k] == d[k]
      {
        assert ScatterAt(v, v', b, n1, n2, j, n1, 0, k, q);
      }
    }
  }

  // Transforming a strip.

  ghost function Segment(s: seq<limb>, n1: nat, l: nat): (c: seq<limb>)
    ensures |c| == n1
  {
    var a := Area(l, n1);
    if a + n1 <= |s| then s[a..a + n1] else seq(n1, i => 0)
  }

  lemma SegmentSlice(s: seq<limb>, n1: nat, l: nat)
    requires l < STRIP_LEN && |s| == Area(STRIP_LEN, n1)
    ensures Area(l, n1) + n1 <= |s| && Segment(s, n1, l) == s[Area(l, n1)..Area(l, n1) + n1]
  {
    AreaRoom(l, STRIP_LEN, n1);
    hide Area;
  }

  /** The first l columns of a strip are transformed, the others untouched. */
  ghost predicate StripDone(s: seq<limb>, t: seq<limb>, n1: nat, om: int, w: int, j: nat, d: nat, m: int, l: nat) {
    forall q: nat | q < STRIP_LEN ::
      Lazy(Segment(t, n1, q), m)
      && if q < l then ColumnOk(Segment(s, n1, q), Segment(t, n1, q), om, Power(w, j + q), d, m)
         else Segment(t, n1, q) == Segment(s, n1, q)
  }

  lemma StripStep(s: seq<limb>, t: seq<limb>, t': seq<limb>, n1: nat, om: int, w: int, j: nat, d: nat, m: int, l: nat)
    requires StripDone(s, t, n1, om, w, j, d, m, l) && l < STRIP_LEN && |t| == |t'| == Area(STRIP_LEN, n1)
    requires ColumnOk(Segment(s, n1, l), Segment(t', n1, l), om, Power(w, j + l), d, m) && Lazy(Segment(t', n1, l), m)
    requires forall x :: 0 <= x < |t| && !(Area(l, n1) <= x < Area(l, n1) + n1) ==> t'[x] == t[x]
    ensures StripDone(s, t', n1, om, w, j, d, m, l + 1)
  {
    hide ColumnOk, Lazy, Power, Area;
    forall q: nat | q < STRIP_LEN && q != l
      ensures Segment(t', n1, q) == Segment(t, n1, q)
    {
      SegmentKeeps(t, t', n1, q, l);
    }
  }

  lemma SegmentKeeps(t: seq<limb>, t': seq<limb>, n1: nat, q: nat, l: nat)
    requires q != l && |t| == |t'|
    requires forall x :: 0 <= x < |t| && !(Area(l, n1) <= x < Area(l, n1) + n1) ==> t'[x] == t[x]
    ensures Segment(t', n1, q) == Segment(t, n1, q)
  {
    if q < l {
      AreaRoom(q, l, n1);
    } else {
      AreaRoom(l, q, n1);
    }
    var a := Area(q, n1);
    if a + n1 <= |t| {
      var x, y := t'[a..a + n1], t[a..a + n1];
      forall i | 0 <= i < n1
        ensures x[i] == y[i]
      {
        assert t'[a + i] == t[a + i];
      }
    }
  }

  /** The column power may be any number congruent to the exact one. */
  lemma ColumnCong(v: seq<limb>, t: seq<limb>, om: int, c: int, c': int, d: nat, m: int)
    requires ColumnOk(v, t, om, c, d, m) && Cong(c, c', m)
    ensures ColumnOk(v, t, om, c', d, m)
  {
    hide Cong, Power, Eval;
    if d == 0 {
      forall i | 0 <= i < |v|
        ensures Cong(t[i], Eval(Ints(v), Power(om, i)) * Power(c', i), m)
      {
        PowerCong(c, c', i, m);
        ScaleCong(t[i], Eval(Ints(v), Power(om, i)), Power(c, i), Power(c', i), m);
      }
    }
    if d == 1 {
      CongPositive(c, c', m);
      forall i | 0 <= i < |v|
        ensures Cong(Twist(v, c)[i], Twist(v, c')[i], m)
      {
        PowerCong(c, c', i, m);
        FactorCong(v[i], Power(c, i), Power(c', i), m);
      }
      forall i | 0 <= i < |v|
        ensures Cong(t[i], Eval(Twist(v, c'), Power(om, i)), m)
      {
        assert CongEach(Twist(v, c), Twist(v, c'), m);
        CongRefl(Power(om, i), m);
        EvalCong(Twist(v, c), Twist(v, c'), Power(om, i), Power(om, i), m);
        CongTrans(t[i], Eval(Twist(v, c), Power(om, i)), Eval(Twist(v, c'), Power(om, i)), m);
      }
    }
  }

  lemma ScaleCong(t: int, e: int, p: int, q: int, m: int)
    requires Cong(t, e * p, m) && Cong(p, q, m)
    ensures Cong(t, e * q, m)
  {
    CongMul(e, e, p, q, m);
  }

  lemma FactorCong(v: int, p: int, q: int, m: int)
    requires Cong(p, q, m)
    ensures Cong(v * p, v * q, m)
  {
    CongMul(v, v, p, q, m);
  }

  method StripFft(strip: array<limb>, tmp: array<limb>, f: Field, k1: nat, d: nat, k: nat, j: nat, cMul0: limb)
    returns (cMul: limb)
    requires RootAt(f, d, k1) && RootAt(f, d, k) && k1 <= TRIG_K_MAX && strip != tmp && P2(k1) <= tmp.Length
    requires strip.Length == Area(STRIP_LEN, P2(k1)) && cMul0 < f.m && Cong(cMul0, Power(Root(f, d, k), j), f.m)
    requires forall q: nat | q < STRIP_LEN :: Lazy(Segment(strip[..], P2(k1), q), f.m)
    modifies strip, tmp
    ensures StripDone(old(strip[..]), strip[..], P2(k1), Root(f, d, k1), Root(f, d, k), j, d, f.m, STRIP_LEN)
    ensures cMul < f.m && Cong(cMul, Power(Root(f, d, k), j + STRIP_LEN), f.m)
  {
    hide Cong, Power, DirectionOk, LengthsOk, BarrettOk, Lazy, P2, ColumnOk, Area, InvOk, Mul, Root, StripDone, Segment;
    var n1, m, c0 := P2(k1), f.m, Root(f, d, k);
    RootFacts(f, d, k);
    BarrettModulus(m, f.mInv);
    InvSmall(c0, f.powInv[d][k], m);
    ghost var s, om, w := strip[..], Root(f, d, k1), Root(f, d, k);
    cMul := cMul0;
    StripStart(s, n1, om, w, j, d, m);
    var l, o := 0, 0;
    AreaZero(n1);
    while l < STRIP_LEN
      invariant 0 <= l <= STRIP_LEN && o == Area(l, n1) && cMul < m && Cong(cMul, Power(w, j + l), m)
      invariant StripDone(s, strip[..], n1, om, w, j, d, m, l)
    {
      ghost var t := strip[..];
      SegmentSlice(t, n1, l);
      StripAt(s, t, n1, om, w, j, d, m, l);
      assert strip[o..o + n1] == Segment(t, n1, l);
      ColumnFft(strip, o, tmp, f, k1, d, cMul);
      ghost var t' := strip[..];
      SegmentSlice(t', n1, l);
      assert strip[o..o + n1] == Segment(t', n1, l);
      ColumnCong(Segment(t, n1, l), Segment(t', n1, l), om, cMul, Power(w, j + l), d, m);
      StripStep(s, t, t', n1, om, w, j, d, m, l);
      ProductReducible(cMul, c0, m);
      var next := MulModFast(cMul, c0, m, f.mInv);
      TrigNext(w, cMul, next, j + l, m);
      cMul := next;
      AreaNext(l, n1);
      o := o + n1;
      l := l + 1;
    }
  }

  lemma InvSmall(c: int, cInv: int, m: int)
    requires InvOk(c, cInv, m)
    ensures 0 <= c < m
  {}

  lemma StripStart(s: seq<limb>, n1: nat, om: int, w: int, j: nat, d: nat, m: int)
    requires forall q: nat | q < STRIP_LEN :: Lazy(Segment(s, n1, q), m)
    ensures StripDone(s, s, n1, om, w, j, d, m, 0)
  {
    hide Lazy, Segment;
  }

  lemma StripAt(s: seq<limb>, t: seq<limb>, n1: nat, om: int, w: int, j: nat, d: nat, m: int, l: nat)
    requires StripDone(s, t, n1, om, w, j, d, m, l) && l < STRIP_LEN
    ensures Segment(t, n1, l) == Segment(s, n1, l) && Lazy(Segment(t, n1, l), m)
  {
    hide Lazy, Segment;
  }
}
