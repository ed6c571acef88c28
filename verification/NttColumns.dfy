/** The column pass of a long transform (libbf.c mul_trig, ntt_fft_partial): strips of columns are gathered,
    transformed, twisted and put back. */
module NttColumns {
  import opened Limbs
  import opened LimbArith
  import opened Congruence
  import opened NttField
  import opened NttStage
  import opened NttTransform
  import opened NttRows

  const STRIP_LEN: nat := 16

  /** Values multiplied by the powers of c. */
  ghost predicate Twisted(v: seq<limb>, t: seq<limb>, c: int, m: int) {
    |t| == |v| && forall i :: 0 <= i < |v| ==> Cong(t[i], (v[i] as int) * Power(c, i), m)
  }

  /** mul_trig */
  method MulTrig(buf: array<limb>, o: nat, n: nat, cMul: limb, f: Field)
    requires FieldOk(f) && cMul < f.m && o + n <= buf.Length && Lazy(buf[o..o + n], f.m)
    modifies buf
    ensures Twisted(old(buf[o..o + n]), buf[o..o + n], cMul, f.m) && Lazy(buf[o..o + n], f.m)
    ensures Untouched(buf, o, o + n)
  {
    hide Cong, Power, Mul, InvOk, BarrettOk, DirectionOk, LengthsOk, Lazy;
    var m, mInv := f.m, f.mInv;
    BarrettModulus(m, mInv);
    ghost var v := buf[o..o + n];
    var c0: limb := 1;
    TrigStart(cMul, m);
    var cMulInv := InitMulModFast2(cMul, m);
    var i := 0;
    while i < n
      invariant 0 <= i <= n && c0 < m && Cong(c0, Power(cMul, i), m)
      invariant forall k :: i <= k < n ==> buf[o + k] == v[k]
      invariant
        var t := buf[o..o + n];
        forall k :: 0 <= k < i ==> t[k] < m && Cong(t[k], (v[k] as int) * Power(cMul, k), m)
      invariant Untouched(buf, o, o + n)
    {
      LazyAt(v, m, i);
      assert buf[o + i] == v[i];
      ProductReducible(v[i], c0, m);
      var x := MulModFast(buf[o + i], c0, m, mInv);
      TwistCong(x, v[i], c0, Power(cMul, i), m);
      ghost var t: seq<limb> := buf[o..o + n];
      buf[o + i] := x;
      assert buf[o..o + n] == t[i := x];
      var next := MulModFast2(c0, cMul, m, cMulInv);
      TrigNext(cMul, c0, next, i, m);
      c0 := next;
      i := i + 1;
    }
    ReducedLazy(buf[o..o + n], m);
  }

  lemma TwistCong(x: int, v: int, c: int, p: int, m: int)
    requires Cong(x, Mul(v, c), m) && Cong(c, p, m)
    ensures Cong(x, v * p, m)
  {
    CongMul(v, v, c, p, m);
  }

  lemma ReducedLazy(t: seq<limb>, m: int)
    requires m > 0 && forall k :: 0 <= k < |t| ==> t[k] < m
    ensures Lazy(t, m)
  {}

  /** A root of smaller order is a power of one of larger order. */
  lemma {:induction false} RootPower(f: Field, d: nat, k: nat, k': nat)
    requires RootAt(f, d, k) && 1 <= k' <= k
    ensures Cong(Root(f, d, k'), Power(Root(f, d, k), P2(k - k')), f.m)
    decreases k - k'
  {
    hide Cong, Power, DirectionOk, LengthsOk, BarrettOk, Root;
    var w, m := Root(f, d, k), f.m;
    if k' == k {
      assert P2(0) == 1;
      PowerFirst(w);
      RootFacts(f, d, k);
      CongRefl(w, m);
    } else {
      RootPower(f, d, k, k' + 1);
      RootFacts(f, d, k' + 1);
      SquareStep(w, Root(f, d, k' + 1), Root(f, d, k'), k - k' - 1, m);
    }
  }

  // One column.

  ghost function Twist(v: seq<limb>, c: int): (z: seq<int>)
    ensures |z| == |v|
  {
    seq(|v|, i requires 0 <= i < |v| => (v[i] as int) * Power(c, i))
  }

  /** Forward: transformed, then twisted. Inverse: twisted, then transformed. */
  ghost predicate ColumnOk(v: seq<limb>, t: seq<limb>, om: int, c: int, d: nat, m: int) {
    && |t| == |v|
    && (d == 0 ==> forall i :: 0 <= i < |v| ==> Cong(t[i], Eval(Ints(v), Power(om, i)) * Power(c, i), m))
    && (d == 1 ==> forall i :: 0 <= i < |v| ==> Cong(t[i], Eval(Twist(v, c), Power(om, i)), m))
  }

  lemma ForwardColumn(v: seq<limb>, u: seq<limb>, t: seq<limb>, om: int, c: int, m: int)
    requires Transformed(Ints(v), u, om, m) && Twisted(u, t, c, m)
    ensures ColumnOk(v, t, om, c, 0, m)
  {
    hide Cong, Power, Eval;
    forall i | 0 <= i < |v|
      ensures Cong(t[i], Eval(Ints(v), Power(om, i)) * Power(c, i), m)
    {
      TwistedValue(t[i], u[i], Eval(Ints(v), Power(om, i)), Power(c, i), m);
    }
  }

  lemma TwistedValue(t: int, u: int, e: int, p: int, m: int)
    requires Cong(t, u * p, m) && Cong(u, e, m)
    ensures Cong(t, e * p, m)
  {
    CongMul(u, e, p, p, m);
  }

  lemma InverseColumn(v: seq<limb>, u: seq<limb>, t: seq<limb>, om: int, c: int, m: int)
    requires m > 0 && Twisted(v, u, c, m) && Transformed(Ints(u), t, om, m)
    ensures ColumnOk(v, t, om, c, 1, m)
  {
    hide Power, Eval;
    assert CongEach(Ints(u), Twist(v, c), m);
    forall i | 0 <= i < |v|
      ensures Cong(t[i], Eval(Twist(v, c), Power(om, i)), m)
    {
      EvalCong(Ints(u), Twist(v, c), Power(om, i), Power(om, i), m);
    }
  }

  method ColumnFft(buf: array<limb>, o: nat, tmp: array<limb>, f: Field, k1: nat, d: nat, cMul: limb)
    requires RootAt(f, d, k1) && k1 <= TRIG_K_MAX && buf != tmp && o + P2(k1) <= buf.Length && P2(k1) <= tmp.Length
    requires cMul < f.m && Lazy(buf[o..o + P2(k1)], f.m)
    modifies buf, tmp
    ensures ColumnOk(old(buf[o..o + P2(k1)]), buf[o..o + P2(k1)], Root(f, d, k1), cMul, d, f.m)
    ensures Lazy(buf[o..o + P2(k1)], f.m) && Untouched(buf, o, o + P2(k1))
  {
    hide Cong, Power, DirectionOk, LengthsOk, BarrettOk, Root, Lazy, P2, ColumnOk, Twisted, Transformed;
    var n := P2(k1);
    ghost var v := buf[o..o + n];
    RootFacts(f, d, k1);
    if d == 1 {
      MulTrig(buf, o, n, cMul, f);
      ghost var u := buf[o..o + n];
      NttFft(buf, o, tmp, f, k1, d);
      InverseColumn(v, u, buf[o..o + n], Root(f, d, k1), cMul, f.m);
    } else {
      NttFft(buf, o, tmp, f, k1, d);
      ghost var u := buf[o..o + n];
      MulTrig(buf, o, n, cMul, f);
      ForwardColumn(v, u, buf[o..o + n], Root(f, d, k1), cMul, f.m);
    }
  }

  // Strips.

  ghost function AtLimb(v: seq<limb>, k: int): limb {
    if 0 <= k < |v| then v[k] else 0
  }

  ghost function ColumnOf(v: seq<limb>, n1: nat, n2: nat, j: nat): (c: seq<limb>)
    ensures |c| == n1
  {
    seq(n1, i requires 0 <= i < n1 => AtLimb(v, Area(i, n2) + j))
  }

  lemma ColumnInts(v: seq<limb>, n1: nat, n2: nat, j: nat)
    ensures Ints(ColumnOf(v, n1, n2, j)) == Col(Ints(v), n1, n2, j)
  {
    hide Area;
  }

  /** Rows before the i-th are gathered. */
  ghost predicate Gathered(v: seq<limb>, b: seq<limb>, n1: nat, n2: nat, j: nat, i: nat) {
    forall l: nat, k: nat | l < STRIP_LEN && k < i :: AtLimb(b, Area(l, n1) + k) == AtLimb(v, Area(k, n2) + j + l)
  }

  lemma CellBound(i: nat, n: nat, k: nat, n2: nat)
    requires i < n && k < n2
    ensures Area(i, n2) + k < Area(n, n2)
  {
    AreaRoom(i, n, n2);
  }

  /** Different cells of a matrix with n columns. */
  lemma CellsDiffer(l: nat, k: nat, l': nat, k': nat, n: nat)
    requires k < n && k' < n && (l != l' || k != k')
    ensures Area(l, n) + k != Area(l', n) + k'
  {
    if l < l' {
      AreaRoom(l, l', n);
    } else if l' < l {
      AreaRoom(l', l, n);
    }
  }

  /** A strip of columns becomes contiguous. */
  method Gather(buf: array<limb>, o: nat, n1: nat, n2: nat, j: nat, strip: array<limb>)
    requires buf != strip && o + Area(n1, n2) <= buf.Length && strip.Length == Area(STRIP_LEN, n1)
             && j + STRIP_LEN <= n2
    modifies strip
    ensures Gathered(buf[o..o + Area(n1, n2)], strip[..], n1, n2, j, n1)
  {
    hide Area;
    ghost var v := buf[o..o + Area(n1, n2)];
    var i, row := 0, 0;
    AreaZero(n2);
    while i < n1
      invariant 0 <= i <= n1 && row == Area(i, n2) && buf[o..o + Area(n1, n2)] == v
      invariant Gathered(v, strip[..], n1, n2, j, i)
    {
      var l, col := 0, 0;
      AreaZero(n1);
      while l < STRIP_LEN
        invariant 0 <= l <= STRIP_LEN && col == Area(l, n1) && buf[o..o + Area(n1, n2)] == v
        invariant Gathered(v, strip[..], n1, n2, j, i)
        invariant forall l': nat | l' < l :: AtLimb(strip[..], Area(l', n1) + i) == AtLimb(v, row + j + l')
      {
        CellBound(l, STRIP_LEN, i, n1);
        CellBound(i, n1, j + l, n2);
        ghost var b: seq<limb> := strip[..];
        strip[i + col] := buf[o + row + (j + l)];
        assert strip[..] == b[i + col := v[row + j + l]];
        GatherStep(v, b, strip[..], n1, n2, j, i, l);
        AreaNext(l, n1);
        col := col + n1;
        l := l + 1;
      }
      AreaNext(i, n2);
      row := row + n2;
      i := i + 1;
    }
  }

  lemma GatherStep(v: seq<limb>, b: seq<limb>, b': seq<limb>, n1: nat, n2: nat, j: nat, i: nat, l: nat)
    requires i < n1 && l < STRIP_LEN && |b| == Area(STRIP_LEN, n1) && Area(l, n1) + i < |b| && Area(i, n2) + j + l < |v|
    requires b' == b[Area(l, n1) + i := v[Area(i, n2) + j + l]] && Gathered(v, b, n1, n2, j, i)
    requires forall l': nat | l' < l :: AtLimb(b, Area(l', n1) + i) == AtLimb(v, Area(i, n2) + j + l')
    ensures Gathered(v, b', n1, n2, j, i)
    ensures forall l': nat | l' < l + 1 :: AtLimb(b', Area(l', n1) + i) == AtLimb(v, Area(i, n2) + j + l')
  {
    hide Area;
    forall l': nat, k: nat | l' < STRIP_LEN && k < i
      ensures AtLimb(b', Area(l', n1) + k) == AtLimb(v, Area(k, n2) + j + l')
    {
      CellsDiffer(l', k, l, i, n1);
    }
    forall l': nat | l' < l + 1
      ensures AtLimb(b', Area(l', n1) + i) == AtLimb(v, Area(i, n2) + j + l')
    {
      if l' < l {
        CellsDiffer(l', i, l, i, n1);
      }
    }
  }

  lemma GatheredColumn(v: seq<limb>, b: seq<limb>, n1: nat, n2: nat, j: nat, l: nat)
    requires Gathered(v, b, n1, n2, j, n1) && l < STRIP_LEN && Area(l, n1) + n1 <= |b|
    ensures b[Area(l, n1)..Area(l, n1) + n1] == ColumnOf(v, n1, n2, j + l)
  {
    hide Area;
    var s, c := b[Area(l, n1)..Area(l, n1) + n1], ColumnOf(v, n1, n2, j + l);
    forall k | 0 <= k < n1
      ensures s[k] == c[k]
    {
      assert AtLimb(b, Area(l, n1) + k) == AtLimb(v, Area(k, n2) + j + l);
    }
  }
}
