/** The number theoretic transform (libbf.c get_trig, ntt_fft): Stockham passes between two buffers, with
    values kept below twice the modulus. */
module NttTransform {
  import opened Limbs
  import opened LimbArith
  import opened Congruence
  import opened NttRoots
  import opened NttField
  import opened NttStage

  const TRIG_K_MAX := 19

  /** add_mod */
  method AddMod(a: limb, b: limb, m: limb) returns (r: limb)
    requires a < m && b < m && m <= HALF
    ensures r < m && (r == a + b || r + m == a + b)
  {
    r := (a + b) % BASE;
    if r >= m {
      r := r - m;
    }
  }

  /** sub_mod: the wrap-around of the subtraction tells the sign. */
  method SubMod(a: limb, b: limb, m: limb) returns (r: limb)
    requires a < m && b < m
    ensures r < m && (a == r + b || a + m == r + b)
  {
    r := (a - b) % BASE;
    if r > a {
      r := (r + m) % BASE;
    }
  }

  /** The twiddle factors of a pass: powers of the root and their precomputed quotients. */
  ghost predicate TrigOk(tab: seq<limb>, c: int, n2: nat, m: int) {
    |tab| == 2 * n2 && forall i ::
        0 <= i < n2 ==> InvOk(tab[2 * i], tab[2 * i + 1], m) && Cong(tab[2 * i], Power(c, i), m)
  }

  /** The tables hold a root of order 2^k for direction d. */
  ghost predicate RootAt(f: Field, d: nat, k: nat) {
    FieldOk(f) && d < 2 && 1 <= k <= PROOT_2EXP
  }

  /** The root of order 2^k. */
  function Root(f: Field, d: nat, k: nat): limb {
    if d < |f.pow| && k < |f.pow[d]| then f.pow[d][k] else 0
  }

  lemma RootFacts(f: Field, d: nat, k: nat)
    requires RootAt(f, d, k)
    ensures |f.pow| == |f.powInv| == 2 && |f.pow[d]| == |f.powInv[d]| == PROOT_2EXP + 1
    ensures BarrettOk(f.m, f.mInv) && ModulusOk(f.m) && InvOk(Root(f, d, k), f.powInv[d][k], f.m)
    ensures Cong(Power(Root(f, d, k), P2(k - 1)), -1, f.m)
    ensures k > 1 ==> Cong(Root(f, d, k - 1), Mul(Root(f, d, k), Root(f, d, k)), f.m)
  {
    hide Cong, InvOk, Power, Mul, P2, BarrettOk;
    assert DirectionOk(f.m, f.pow[d], f.powInv[d]);
    assert RootOk(f.m, f.pow[d][k], f.powInv[d][k], k);
    BarrettModulus(f.m, f.mInv);
  }

  /** get_trig */
  method GetTrig(f: Field, k: nat, d: nat) returns (tab: array<limb>)
    requires RootAt(f, d, k) && k <= TRIG_K_MAX
    ensures fresh(tab) && TrigOk(tab[..], Root(f, d, k), P2(k - 1), f.m)
  {
    hide Cong, InvOk, Power, Mul, P2, BarrettOk, DirectionOk, LengthsOk, Root;
    RootFacts(f, d, k);
    var n2 := P2(k - 1);
    var m, cMul, cMulInv := f.m, Root(f, d, k), f.powInv[d][k];
    tab := new limb[2 * n2](i => 0);
    var c: limb := 1;
    TrigStart(cMul, m);
    var i := 0;
    while i < n2
      invariant 0 <= i <= n2 && tab.Length == 2 * n2 && c < m && Cong(c, Power(cMul, i), m)
      invariant TrigOk(tab[..2 * i], cMul, i, m)
    {
      ghost var before := tab[..2 * i];
      tab[2 * i] := c;
      var inv := InitMulModFast2(c, m);
      tab[2 * i + 1] := inv;
      assert tab[..2 * i] == before;
      assert tab[..2 * (i + 1)] == before + [c, inv];
      TrigSnoc(before, cMul, i, m, c, inv);
      var next := MulModFast2(c, cMul, m, cMulInv);
      TrigNext(cMul, c, next, i, m);
      c := next;
      i := i + 1;
    }
    assert tab[..2 * n2] == tab[..];
  }

  lemma TrigStart(w: int, m: int)
    requires ModulusOk(m)
    ensures Cong(1, Power(w, 0), m) && 1 < m
  {}

  lemma TrigNext(w: int, c: int, next: int, i: nat, m: int)
    requires Cong(c, Power(w, i), m) && Cong(next, Mul(c, w), m)
    ensures Cong(next, Power(w, i + 1), m)
  {
    CongMul(c, Power(w, i), w, w, m);
    assert Power(w, i + 1) == w * Power(w, i) == Power(w, i) * w;
  }

  lemma TrigSnoc(tab: seq<limb>, c: int, i: nat, m: int, x: limb, xInv: limb)
    requires TrigOk(tab, c, i, m) && InvOk(x, xInv, m) && Cong(x, Power(c, i), m)
    ensures TrigOk(tab + [x, xInv], c, i + 1, m)
  {
    hide Cong, InvOk, Power;
    var t := tab + [x, xInv];
    forall k | 0 <= k < i + 1
      ensures InvOk(t[2 * k], t[2 * k + 1], m) && Cong(t[2 * k], Power(c, k), m)
    {
      if k < i {
        assert t[2 * k] == tab[2 * k] && t[2 * k + 1] == tab[2 * k + 1];
      }
    }
  }

  /** All values below 2 * m. */
  ghost predicate Lazy(v: seq<limb>, m: int) {
    forall i :: 0 <= i < |v| ==> v[i] < 2 * m
  }

  ghost predicate PairOk(a0: int, a1: int, b0: int, b1: int, c: int, m: int) {
    b0 < 2 * m && b1 < 2 * m && Cong(b0, a0 + a1, m) && Cong(b1, (a0 - a1) * c, m)
  }

  /** One butterfly with a twiddle factor. The difference is kept non-negative by adding twice the modulus,
      and stays below 2^64. */
  method Twiddle(a0: limb, a1: limb, c: limb, cInv: limb, m: limb) returns (b0: limb, b1: limb)
    requires ModulusOk(m) && InvOk(c, cInv, m) && a0 < 2 * m && a1 < 2 * m
    ensures PairOk(a0, a1, b0, b1, c, m)
  {
    hide Cong, InvOk, Mul;
    b0 := AddMod(a0, a1, 2 * m);
    var e: limb := (a0 - a1 + 2 * m) % BASE;
    b1 := MulModFast3(e, c, m, cInv);
    TwiddleCong(a0, a1, b0, b1, c, m);
  }

  lemma TwiddleCong(a0: int, a1: int, b0: int, b1: int, c: int, m: int)
    requires m > 0 && (b0 == a0 + a1 || b0 + 2 * m == a0 + a1) && Cong(b1, Mul(a0 - a1 + 2 * m, c), m)
    ensures Cong(b0, a0 + a1, m) && Cong(b1, (a0 - a1) * c, m)
  {
    CongWitness(b0, a0 + a1, if b0 == a0 + a1 then 0 else -2, m);
    CongWitness(a0 - a1 + 2 * m, a0 - a1, 2, m);
    CongMul(a0 - a1 + 2 * m, a0 - a1, c, c, m);
  }

  /** The butterflies of a block: the two halves of the input give the two halves of the output. */
  ghost predicate BlockOk(a0: seq<limb>, a1: seq<limb>, b0: seq<limb>, b1: seq<limb>, c: int, m: int) {
    |a0| == |a1| == |b0| == |b1| && forall j :: 0 <= j < |a0| ==> PairOk(a0[j], a1[j], b0[j], b1[j], c, m)
  }

  lemma BlockSnoc(a0: seq<limb>, a1: seq<limb>, b0: seq<limb>, b1: seq<limb>, x0: limb, x1: limb, y0: limb, y1: limb,
                  c: int, m: int)
    requires BlockOk(a0, a1, b0, b1, c, m) && PairOk(x0, x1, y0, y1, c, m)
    ensures BlockOk(a0 + [x0], a1 + [x1], b0 + [y0], b1 + [y1], c, m)
  {
    hide PairOk;
  }

  lemma LazyAt(v: seq<limb>, m: int, i: nat)
    requires Lazy(v, m) && i < |v|
    ensures v[i] < 2 * m
  {}

  /** The butterflies of one block share a twiddle factor. */
  method Block(tin: array<limb>, ti: nat, tout: array<limb>, to: nat, F: nat, stride: nat, c: limb, cInv: limb, m: limb)
    requires tin != tout && ti + stride + F <= tin.Length && to + 2 * F <= tout.Length
    requires ModulusOk(m) && InvOk(c, cInv, m)
    requires Lazy(tin[ti..ti + F], m) && Lazy(tin[ti + stride..ti + stride + F], m)
    modifies tout
    ensures BlockOk(tin[ti..ti + F], tin[ti + stride..ti + stride + F], tout[to..to + F], tout[to + F..to + 2 * F], c,
                    m)
    ensures Untouched(tout, to, to + 2 * F)
  {
    hide PairOk, InvOk, BlockOk, Lazy;
    ghost var A0, A1 := tin[ti..ti + F], tin[ti + stride..ti + stride + F];
    ghost var B0: seq<limb>, B1: seq<limb> := [], [];
    var j := 0;
    BlockEmpty(A0, A1, c, m);
    while j < F
      invariant 0 <= j <= F && |B0| == |B1| == j && tout[to..to + j] == B0 && tout[to + F..to + F + j] == B1
      invariant tin[ti..ti + F] == A0 && tin[ti + stride..ti + stride + F] == A1
      invariant BlockOk(A0[..j], A1[..j], B0, B1, c, m)
      invariant Untouched(tout, to, to + 2 * F)
    {
      LazyAt(A0, m, j);
      LazyAt(A1, m, j);
      assert A0[j] == tin[ti + j] && A1[j] == tin[ti + stride + j];
      var b0, b1 := Twiddle(tin[ti + j], tin[ti + j + stride], c, cInv, m);
      BlockSnoc(A0[..j], A1[..j], B0, B1, A0[j], A1[j], b0, b1, c, m);
      assert A0[..j] + [A0[j]] == A0[..j + 1] && A1[..j] + [A1[j]] == A1[..j + 1];
      tout[to + j] := b0;
      tout[to + j + F] := b1;
      B0, B1 := B0 + [b0], B1 + [b1];
      j := j + 1;
    }
    assert A0[..F] == A0 && A1[..F] == A1;
  }

  lemma BlockEmpty(a0: seq<limb>, a1: seq<limb>, c: int, m: int)
    ensures BlockOk(a0[..0], a1[..0], [], [], c, m)
  {}

  /** The blocks before the i-th are done. */
  ghost predicate Done(v: seq<limb>, t: seq<limb>, F: nat, H: nat, c: int, m: int, i: nat) {
    forall i': nat, j: nat | i' < i && j < F :: Butterfly(v, t, F, H, c, m, i', j)
  }

  lemma DoneKeeps(v: seq<limb>, t: seq<limb>, t': seq<limb>, F: nat, H: nat, c: int, m: int, i: nat)
    requires Done(v, t, F, H, c, m, i) && |t| == |t'| && Area(i, 2 * F) <= |t|
    requires t[..Area(i, 2 * F)] == t'[..Area(i, 2 * F)]
    ensures Done(v, t', F, H, c, m, i)
  {
    hide Cong, Area, Power;
    forall i': nat, j: nat | i' < i && j < F
      ensures Butterfly(v, t', F, H, c, m, i', j)
    {
      assert Butterfly(v, t, F, H, c, m, i', j);
      AreaRoom(i', i, 2 * F);
      var p := Area(i', 2 * F);
      assert t[p + j] == t[..Area(i, 2 * F)][p + j] == t'[p + j];
      assert t[p + j + F] == t[..Area(i, 2 * F)][p + j + F] == t'[p + j + F];
    }
  }

  lemma AreaRoom(x: nat, y: nat, z: nat)
    requires x < y
    ensures Area(x, z) + z <= Area(y, z)
  {
    MulMono(x + 1, y, z);
    MulDist(x, 1, z);
  }

  lemma DoneMore(v: seq<limb>, t: seq<limb>, F: nat, H: nat, c: int, m: int, i: nat)
    requires Done(v, t, F, H, c, m, i) && forall j: nat | j < F :: Butterfly(v, t, F, H, c, m, i, j)
    ensures Done(v, t, F, H, c, m, i + 1)
  {
    hide Butterfly;
  }

  /** What a block computed, as butterflies of the pass. */
  lemma BlockButterfly(v: seq<limb>, t: seq<limb>, F: nat, H: nat, c: int, x: int, m: int, i: nat, j: nat)
    requires i < H && j < F && |v| == |t| == Area(2 * H, F) && Cong(x, Power(c, i), m)
    requires Area(i, F) + j + Area(H, F) < |v| && 2 * Area(i, F) + j + F < |t|
    requires PairOk(v[Area(i, F) + j], v[Area(i, F) + j + Area(H, F)], t[2 * Area(i, F) + j],
                    t[2 * Area(i, F) + j + F], x, m)
    ensures Butterfly(v, t, F, H, c, m, i, j)
  {
    hide Cong, Power, Area;
    AreaAdd(H, i, F);
    AreaTwice(i, F);
    var a0, a1 := v[Area(i, F) + j], v[Area(i, F) + j + Area(H, F)];
    Rescale(a0 as int - a1 as int, x, Power(c, i), t[2 * Area(i, F) + j + F], m);
  }

  lemma AreaAdd(x: nat, y: nat, z: nat)
    ensures Area(x + y, z) == Area(x, z) + Area(y, z)
  {}

  lemma AreaTwice(x: nat, z: nat)
    ensures Area(x, 2 * z) == 2 * Area(x, z) && Area(2 * x, z) == 2 * Area(x, z)
  {}

  lemma Rescale(a: int, x: int, y: int, b: int, m: int)
    requires Cong(x, y, m) && Cong(b, a * x, m)
    ensures Cong(b, a * y, m)
  {
    CongMul(a, a, x, y, m);
  }

  lemma LazySlice(v: seq<limb>, m: int, i: nat, j: nat)
    requires Lazy(v, m) && i <= j <= |v|
    ensures Lazy(v[i..j], m)
  {}

  lemma BlockLazy(a0: seq<limb>, a1: seq<limb>, b0: seq<limb>, b1: seq<limb>, c: int, m: int)
    requires BlockOk(a0, a1, b0, b1, c, m)
    ensures Lazy(b0, m) && Lazy(b1, m)
  {
    hide Cong;
    forall j | 0 <= j < |b0|
      ensures b0[j] < 2 * m && b1[j] < 2 * m
    {
      assert PairOk(a0[j], a1[j], b0[j], b1[j], c, m);
    }
  }

  lemma LazyJoin(u: seq<limb>, v: seq<limb>, w: seq<limb>, m: int)
    requires Lazy(u, m) && Lazy(v, m) && Lazy(w, m)
    ensures Lazy(u + v + w, m)
  {}

  lemma BlockDone(v: seq<limb>, t: seq<limb>, F: nat, H: nat, c: int, x: int, m: int, i: nat, k: nat)
    requires i < H && |v| == |t| == Area(2 * H, F) && k == Area(i, F) && Cong(x, Power(c, i), m)
    requires k + Area(H, F) + F <= |v| && 2 * k + 2 * F <= |t|
    requires BlockOk(v[k..k + F], v[k + Area(H, F)..k + Area(H, F) + F], t[2 * k..2 * k + F],
                     t[2 * k + F..2 * k + 2 * F], x, m)
    ensures forall j: nat | j < F :: Butterfly(v, t, F, H, c, m, i, j)
  {
    hide Area, Butterfly, Cong, PairOk, Power;
    forall j: nat | j < F
      ensures Butterfly(v, t, F, H, c, m, i, j)
    {
      assert v[k..k + F][j] == v[k + j];
      assert v[k + Area(H, F)..k + Area(H, F) + F][j] == v[k + j + Area(H, F)];
      assert t[2 * k..2 * k + F][j] == t[2 * k + j] && t[2 * k + F..2 * k + 2 * F][j] == t[2 * k + j + F];
      BlockButterfly(v, t, F, H, c, x, m, i, j);
    }
  }

  lemma AreaNext(i: nat, F: nat)
    ensures Area(i + 1, F) == Area(i, F) + F && Area(i + 1, 2 * F) == Area(i, 2 * F) + 2 * F
  {}

  /** A part of a part of an array. */
  lemma Slice(a: array<limb>, o: nat, n: nat, i: nat, j: nat)
    requires o + n <= a.Length && i <= j <= n
    ensures a[o..o + n][i..j] == a[o + i..o + j]
  {
    var s := a[..];
    assert a[o..o + n] == s[o..o + n] && a[o + i..o + j] == s[o + i..o + j];
    SliceOfSlice(s, o, n, i, j);
  }

  lemma SliceOfSlice<T>(s: seq<T>, o: nat, n: nat, i: nat, j: nat)
    requires o + n <= |s| && i <= j <= n
    ensures s[o..o + n][i..j] == s[o + i..o + j]
  {
    var l, r := s[o..o + n][i..j], s[o + i..o + j];
    forall k | 0 <= k < j - i
      ensures l[k] == r[k]
    {
    }
  }

  /** One more block of a pass is done. */
  lemma PassBlockDone(v: seq<limb>, t: seq<limb>, t': seq<limb>, F: nat, H: nat, c: int, x: int, m: int, i: nat, k: nat)
    requires i < H && |v| == |t| == |t'| == Area(2 * H, F) && k == Area(i, F) && Cong(x, Power(c, i), m)
    requires k + Area(H, F) + F <= |v| && 2 * k + 2 * F <= |t| && 2 * k == Area(i, 2 * F)
    requires BlockOk(v[k..k + F], v[k + Area(H, F)..k + Area(H, F) + F], t'[2 * k..2 * k + F],
                     t'[2 * k + F..2 * k + 2 * F], x, m)
    requires t'[..2 * k] == t[..2 * k] && Done(v, t, F, H, c, m, i)
    ensures Done(v, t', F, H, c, m, i + 1)
  {
    hide Area, Cong, Power, BlockOk, Done;
    DoneKeeps(v, t, t', F, H, c, m, i);
    BlockDone(v, t', F, H, c, x, m, i, k);
    DoneMore(v, t', F, H, c, m, i);
  }

  /** A block, in terms of the whole buffers. */
  method BlockAt(tin: array<limb>, ti: nat, tout: array<limb>, to: nat, n: nat, F: nat, s: nat, k: nat, x: limb,
                 xInv: limb, m: limb)
    requires tin != tout && ti + n <= tin.Length && to + n <= tout.Length
    requires ModulusOk(m) && InvOk(x, xInv, m) && Lazy(tin[ti..ti + n], m)
    requires k + s + F <= n && 2 * k + 2 * F <= n
    modifies tout
    ensures
      var v, t := tin[ti..ti + n], tout[to..to + n];
      && BlockOk(v[k..k + F], v[k + s..k + s + F], t[2 * k..2 * k + F], t[2 * k + F..2 * k + 2 * F], x, m)
      && t[..2 * k] == old(tout[to..to + n])[..2 * k]
    ensures Untouched(tout, to, to + n)
  {
    hide InvOk, Lazy, BlockOk;
    ghost var v := tin[ti..ti + n];
    Slice(tin, ti, n, k, k + F);
    Slice(tin, ti, n, k + s, k + s + F);
    LazySlice(v, m, k, k + F);
    LazySlice(v, m, k + s, k + s + F);
    Block(tin, ti + k, tout, to + 2 * k, F, s, x, xInv, m);
    Slice(tout, to, n, 2 * k, 2 * k + F);
    Slice(tout, to, n, 2 * k + F, 2 * k + 2 * F);
  }

  /** The block i of a pass, in the buffers. */
  method PassBlock(tin: array<limb>, ti: nat, tout: array<limb>, to: nat, n: nat, F: nat, H: nat, m: limb, i: nat,
                   k: nat, x: limb, xInv: limb, ghost c: int)
    requires tin != tout && ti + n <= tin.Length && to + n <= tout.Length && n == Area(2 * H, F) && n / 2 == Area(H, F)
    requires ModulusOk(m) && InvOk(x, xInv, m) && Cong(x, Power(c, i), m) && Lazy(tin[ti..ti + n], m)
    requires i < H && k == Area(i, F) && 2 * k == Area(i, 2 * F) && k + n / 2 + F <= n && 2 * k + 2 * F <= n
    requires Done(tin[ti..ti + n], tout[to..to + n], F, H, c, m, i) && Lazy(tout[to..to + n][..2 * k], m)
    modifies tout
    ensures Done(tin[ti..ti + n], tout[to..to + n], F, H, c, m, i + 1) && Lazy(tout[to..to + n][..2 * k + 2 * F], m)
    ensures Untouched(tout, to, to + n)
  {
    hide Area, InvOk, Cong, Power, Lazy, BlockOk, Done, Pass;
    ghost var v, t := tin[ti..ti + n], tout[to..to + n];
    BlockAt(tin, ti, tout, to, n, F, n / 2, k, x, xInv, m);
    ghost var t' := tout[to..to + n];
    PassBlockDone(v, t, t', F, H, c, x, m, i, k);
    PrefixLazy(t'[..2 * k + 2 * F], t[..2 * k], v[k..k + F], v[k + n / 2..k + n / 2 + F], t'[2 * k..2 * k + F],
               t'[2 * k + F..2 * k + 2 * F], x, m);
  }

  lemma PrefixLazy(p: seq<limb>, l: seq<limb>, a0: seq<limb>, a1: seq<limb>, b0: seq<limb>, b1: seq<limb>, x: int,
                   m: int)
    requires p == l + b0 + b1 && Lazy(l, m) && BlockOk(a0, a1, b0, b1, x, m)
    ensures Lazy(p, m)
  {
    BlockLazy(a0, a1, b0, b1, x, m);
    LazyJoin(l, b0, b1, m);
  }

  /** One pass: stride is half the length, the i-th block uses the i-th power of the root. */
  method OnePass(tin: array<limb>, ti: nat, tout: array<limb>, to: nat, n: nat, F: nat, H: nat, trig: array<limb>,
                 m: limb, ghost c: int)
    requires tin != tout && trig != tout && ti + n <= tin.Length && to + n <= tout.Length && n == Area(2 * H, F)
    requires ModulusOk(m) && TrigOk(trig[..], c, H, m) && Lazy(tin[ti..ti + n], m)
    modifies tout
    ensures Pass(tin[ti..ti + n], tout[to..to + n], F, H, c, m) && Lazy(tout[to..to + n], m)
    ensures Untouched(tout, to, to + n)
  {
    hide Area, Butterfly, InvOk, Cong, Power, Lazy;
    AreaTwice(H, F);
    AreaZero(F);
    AreaZero(2 * F);
    ghost var v, T := tin[ti..ti + n], trig[..];
    LazyNone(tout[to..to + n][..0], m);
    var k, p := 0, 0;
    var i := 0;
    while i < H
      invariant 0 <= i <= H && k == Area(i, F) && p == 2 * k == Area(i, 2 * F) && p <= n
      invariant tin[ti..ti + n] == v && trig[..] == T
      invariant Done(v, tout[to..to + n], F, H, c, m, i) && Lazy(tout[to..to + n][..p], m)
      invariant Untouched(tout, to, to + n)
    {
      AreaRoom(i, H, F);
      AreaNext(i, F);
      assert T[2 * i] == trig[2 * i] && T[2 * i + 1] == trig[2 * i + 1];
      PassBlock(tin, ti, tout, to, n, F, H, m, i, k, trig[2 * i], trig[2 * i + 1], c);
      k := k + F;
      p := p + 2 * F;
      i := i + 1;
    }
    assert tout[to..to + n][..n] == tout[to..to + n];
  }

  lemma LazyNone(v: seq<limb>, m: int)
    requires v == []
    ensures Lazy(v, m)
  {}

  // The whole transform.

  ghost predicate PlainPair(a0: int, a1: int, b0: int, b1: int, m: int) {
    b0 < 2 * m && b1 < 2 * m && Cong(b0, a0 + a1, m) && Cong(b1, a0 - a1, m)
  }

  /** The last pass has no twiddle factors and may work in place. */
  method LastPass(tin: array<limb>, ti: nat, tout: array<limb>, to: nat, half: nat, m: limb)
    requires ti + 2 * half <= tin.Length && to + 2 * half <= tout.Length && (tin == tout ==> ti == to)
    requires ModulusOk(m) && Lazy(tin[ti..ti + 2 * half], m)
    modifies tout
    ensures
      var v, t := old(tin[ti..ti + 2 * half]), tout[to..to + 2 * half];
      forall x :: 0 <= x < half ==> PlainPair(v[x], v[half + x], t[x], t[half + x], m)
    ensures Untouched(tout, to, to + 2 * half)
  {
    hide PlainPair, Lazy, LastInv;
    ghost var v := tin[ti..ti + 2 * half];
    LastStart(v, tout[to..to + 2 * half], half, m);
    var k := 0;
    while k < half
      invariant 0 <= k <= half
      invariant LastInv(v, tin[ti..ti + 2 * half], tout[to..to + 2 * half], half, k, m)
      invariant Untouched(tout, to, to + 2 * half)
    {
      ghost var s, t := tin[ti..ti + 2 * half], tout[to..to + 2 * half];
      LastNext(v, s, t, half, k, m);
      var b0, b1 := LastPair(tin, ti, tout, to, half, m, k);
      assert tin[ti..ti + 2 * half] == if tin == tout then tout[to..to + 2 * half] else s;
      LastStep(v, s, t, half, k, m, b0, b1, tin[ti..ti + 2 * half]);
      k := k + 1;
    }
    LastEnd(v, tin[ti..ti + 2 * half], tout[to..to + 2 * half], half, m);
  }

  /** The pairs before k are done, the others still hold their input; s is the input buffer, t the output buffer. */
  ghost predicate LastInv(v: seq<limb>, s: seq<limb>, t: seq<limb>, half: nat, k: nat, m: int) {
    && |v| == |s| == |t| == 2 * half && k <= half && Lazy(v, m)
    && (forall x :: k <= x < half ==> s[x] == v[x])
    && (forall x :: half + k <= x < 2 * half ==> s[x] == v[x])
    && (forall x :: 0 <= x < k ==> PlainPair(v[x], v[half + x], t[x], t[half + x], m))
  }

  lemma LastStart(v: seq<limb>, t: seq<limb>, half: nat, m: int)
    requires |v| == |t| == 2 * half && Lazy(v, m)
    ensures LastInv(v, v, t, half, 0, m)
  {
    hide Lazy;
  }

  lemma LastNext(v: seq<limb>, s: seq<limb>, t: seq<limb>, half: nat, k: nat, m: int)
    requires LastInv(v, s, t, half, k, m) && k < half
    ensures |v| == |s| == |t| == 2 * half && s[k] == v[k] < 2 * m && s[half + k] == v[half + k] < 2 * m
  {
    hide PlainPair;
  }

  lemma LastStep(v: seq<limb>, s: seq<limb>, t: seq<limb>, half: nat, k: nat, m: int, b0: limb, b1: limb, s': seq<limb>)
    requires LastInv(v, s, t, half, k, m) && k < half && PlainPair(s[k], s[half + k], b0, b1, m)
    requires s' == s || (s == t && s' == t[k := b0][half + k := b1])
    ensures LastInv(v, s', t[k := b0][half + k := b1], half, k + 1, m)
  {
    hide PlainPair, Lazy;
    var t' := t[k := b0][half + k := b1];
    forall x | 0 <= x < k + 1
      ensures PlainPair(v[x], v[half + x], t'[x], t'[half + x], m)
    {
      if x < k {
        assert PlainPair(v[x], v[half + x], t[x], t[half + x], m);
        assert half + x != k;
      }
    }
  }

  lemma LastEnd(v: seq<limb>, s: seq<limb>, t: seq<limb>, half: nat, m: int)
    requires LastInv(v, s, t, half, half, m)
    ensures |v| == |t| == 2 * half && forall x :: 0 <= x < half ==> PlainPair(v[x], v[half + x], t[x], t[half + x], m)
  {
    hide PlainPair, Lazy;
  }

  /** One butterfly of the last pass. */
  method LastPair(tin: array<limb>, ti: nat, tout: array<limb>, to: nat, half: nat, m: limb, k: nat)
    returns (b0: limb, b1: limb)
    requires ti + 2 * half <= tin.Length && to + 2 * half <= tout.Length && k < half && ModulusOk(m)
    requires tin[ti..ti + 2 * half][k] < 2 * m && tin[ti..ti + 2 * half][half + k] < 2 * m
    modifies tout
    ensures PlainPair(old(tin[ti..ti + 2 * half][k]), old(tin[ti..ti + 2 * half][half + k]), b0, b1, m)
    ensures tout[to..to + 2 * half] == old(tout[to..to + 2 * half])[k := b0][half + k := b1]
    ensures Untouched(tout, to, to + 2 * half)
  {
    hide PlainPair;
    ghost var s := tin[ti..ti + 2 * half];
    assert s[k] == tin[ti + k] && s[half + k] == tin[ti + half + k];
    b0, b1 := PlainButterfly(tin[ti + k], tin[ti + half + k], m);
    tout[to + k] := b0;
    tout[to + half + k] := b1;
  }

  method PlainButterfly(a0: limb, a1: limb, m: limb) returns (b0: limb, b1: limb)
    requires ModulusOk(m) && a0 < 2 * m && a1 < 2 * m
    ensures PlainPair(a0, a1, b0, b1, m)
  {
    b0 := AddMod(a0, a1, 2 * m);
    b1 := SubMod(a0, a1, 2 * m);
    PlainCong(a0, a1, b0, b1, m);
  }

  lemma PlainCong(a0: int, a1: int, b0: int, b1: int, m: int)
    requires m > 0 && b0 < 2 * m && b1 < 2 * m
    requires (b0 == a0 + a1 || b0 + 2 * m == a0 + a1) && (a0 == b1 + a1 || a0 + 2 * m == b1 + a1)
    ensures PlainPair(a0, a1, b0, b1, m)
  {
    CongWitness(b0, a0 + a1, if b0 == a0 + a1 then 0 else -2, m);
    CongWitness(b1, a0 - a1, if a0 == b1 + a1 then 0 else 2, m);
  }

  lemma LastPassOk(v: seq<limb>, t: seq<limb>, half: nat, c: int, m: int)
    requires |v| == |t| == 2 * half && forall x :: 0 <= x < half ==> PlainPair(v[x], v[half + x], t[x], t[half + x], m)
    ensures Pass(v, t, half, 1, c, m) && Lazy(t, m)
  {
    hide Cong;
    forall i: nat, j: nat | i < 1 && j < half
      ensures Butterfly(v, t, half, 1, c, m, i, j)
    {
      AreaZero(half);
      AreaZero(2 * half);
      AreaOne(half);
      assert PlainPair(v[j], v[half + j], t[j], t[half + j], m);
      assert Power(c, 0) == 1;
    }
    forall x | 0 <= x < 2 * half
      ensures t[x] < 2 * m
    {
      var j := if x < half then x else x - half;
      assert PlainPair(v[j], v[half + j], t[j], t[half + j], m);
    }
  }

  lemma AreaOne(n: nat)
    ensures Area(1, n) == n
  {}

  function Ints(v: seq<limb>): (s: seq<int>)
    ensures |s| == |v|
  {
    seq(|v|, i requires 0 <= i < |v| => v[i])
  }

  /** The values of P at the powers of w. */
  ghost predicate Transformed(P: seq<int>, t: seq<limb>, w: int, m: int) {
    |t| == |P| && forall q: nat | q < |t| :: Cong(t[q], Eval(P, Power(w, q)), m)
  }

  lemma StageDone(t: seq<limb>, P: seq<int>, w: int, c: int, m: int)
    requires Stage(t, P, w, c, |t|, 1, m) && |P| == |t|
    ensures Transformed(P, t, w, m)
  {
    hide Cong, Stage;
    forall q: nat | q < |t|
      ensures Cong(t[q], Eval(P, Power(w, q)), m)
    {
      StageEnd(t, P, w, c, m, q);
    }
  }

  lemma P2Halves(l: nat)
    requires l >= 1
    ensures P2(l) == 2 * P2(l - 1) && (P2(l) == 2 <==> l == 1)
  {
    if l > 1 {
      assert P2(l - 1) == 2 * P2(l - 2);
    }
  }

  lemma AreaTwoLeft(n: nat)
    ensures Area(2, n) == 2 * n
  {}

  /** A pass with its twiddle factors, and what it does to the subproblems. */
  method FftPass(tin: array<limb>, ti: nat, tout: array<limb>, to: nat, n: nat, F: nat, H: nat, f: Field, ghost L: nat,
                 l: nat, d: nat, ghost P: seq<int>)
    requires RootAt(f, d, L) && 1 < l <= L <= TRIG_K_MAX && tin != tout && ti + n <= tin.Length && to + n <= tout.Length
    requires n == Area(2 * H, F) && H == P2(l - 1) && Lazy(tin[ti..ti + n], f.m)
    requires Stage(tin[ti..ti + n], P, Root(f, d, L), Root(f, d, l), F, 2 * H, f.m)
    modifies tout
    ensures Stage(tout[to..to + n], P, Root(f, d, L), Root(f, d, l - 1), 2 * F, H, f.m)
    ensures Lazy(tout[to..to + n], f.m) && Untouched(tout, to, to + n)
  {
    hide Cong, Power, Lazy, Stage, Pass, FieldOk, P2, Area, Root, TrigOk, Mul;
    RootFacts(f, d, l);
    var trig := GetTrig(f, l, d);
    OnePass(tin, ti, tout, to, n, F, H, trig, f.m, Root(f, d, l));
    PassAtRoot(tin[ti..ti + n], tout[to..to + n], P, Root(f, d, L), Root(f, d, l), Root(f, d, l - 1), F, H, f.m);
  }

  lemma PassAtRoot(v: seq<limb>, t: seq<limb>, P: seq<int>, w: int, c: int, c': int, F: nat, H: nat, m: int)
    requires Stage(v, P, w, c, F, 2 * H, m) && Pass(v, t, F, H, c, m)
    requires Cong(Power(c, H), -1, m) && Cong(c', Mul(c, c), m)
    ensures Stage(t, P, w, c', 2 * F, H, m)
  {
    hide Stage, Pass, Power, Cong;
    PassStage(v, t, P, w, c, c', F, H, m);
  }

  lemma FinalStage(v: seq<limb>, t: seq<limb>, P: seq<int>, w: int, c: int, F: nat, m: int)
    requires Stage(v, P, w, c, F, 2, m) && Pass(v, t, F, 1, c, m) && Cong(Power(c, P2(0)), -1, m)
    requires |P| == |t| == 2 * F
    ensures Transformed(P, t, w, m)
  {
    hide Stage, Pass, Power, Transformed;
    assert P2(0) == 1;
    assert Cong(c * c, c * c, m);
    PassStage(v, t, P, w, c, c * c, F, 1, m);
    StageDone(t, P, w, c * c, m);
  }

  /** The pass without twiddle factors, and the end of the transform. */
  method FftFinish(tin: array<limb>, ti: nat, buf: array<limb>, o: nat, F: nat, f: Field, L: nat, d: nat,
                   ghost P: seq<int>)
    requires RootAt(f, d, L) && ti + 2 * F <= tin.Length && o + 2 * F <= buf.Length && (tin == buf ==> ti == o)
    requires Stage(tin[ti..ti + 2 * F], P, Root(f, d, L), Root(f, d, 1), F, 2, f.m) && Lazy(tin[ti..ti + 2 * F], f.m)
    requires |P| == 2 * F
    modifies buf
    ensures Transformed(P, buf[o..o + 2 * F], Root(f, d, L), f.m) && Lazy(buf[o..o + 2 * F], f.m)
    ensures Untouched(buf, o, o + 2 * F)
  {
    hide Cong, Power, Lazy, Stage, Pass, FieldOk, P2, Transformed, Root, PlainPair;
    RootFacts(f, d, 1);
    ghost var v := tin[ti..ti + 2 * F];
    LastPass(tin, ti, buf, o, F, f.m);
    ghost var t := buf[o..o + 2 * F];
    LastPassOk(v, t, F, Root(f, d, 1), f.m);
    FinalStage(v, t, P, Root(f, d, L), Root(f, d, 1), F, f.m);
  }

  /** ntt_fft, with the output replacing the input: the values of the polynomial at the powers of the root,
      in natural order, below twice the modulus. */
  method NttFft(buf: array<limb>, o: nat, tmp: array<limb>, f: Field, L: nat, d: nat)
    requires RootAt(f, d, L) && L <= TRIG_K_MAX && buf != tmp && o + P2(L) <= buf.Length && P2(L) <= tmp.Length
    requires Lazy(buf[o..o + P2(L)], f.m)
    modifies buf, tmp
    ensures Transformed(Ints(old(buf[o..o + P2(L)])), buf[o..o + P2(L)], Root(f, d, L), f.m)
    ensures Lazy(buf[o..o + P2(L)], f.m) && Untouched(buf, o, o + P2(L))
  {
    hide Cong, Power, Lazy, Stage, Pass, RootAt, P2, Area, Transformed, Root;
    var n := P2(L);
    ghost var P := Ints(buf[o..o + n]);
    FftStart(buf[o..o + n], P, f, d, L);
    var nbBlocks: nat, F: nat, l: nat := n, 1, L;
    var tin, ti, tout, to := buf, o, tmp, 0;
    while nbBlocks != 2
      invariant 1 <= l <= L && nbBlocks == P2(l) && n == Area(nbBlocks, F)
      invariant (tin == buf && ti == o && tout == tmp && to == 0) || (tin == tmp && ti == 0 && tout == buf && to == o)
      invariant Stage(tin[ti..ti + n], P, Root(f, d, L), Root(f, d, l), F, nbBlocks, f.m) && Lazy(tin[ti..ti + n], f.m)
      invariant Untouched(buf, o, o + n)
      decreases l
    {
      P2Halves(l);
      nbBlocks := nbBlocks / 2;
      FftPass(tin, ti, tout, to, n, F, nbBlocks, f, L, l, d, P);
      AreaTwice(nbBlocks, F);
      F := 2 * F;
      l := l - 1;
      tin, ti, tout, to := tout, to, tin, ti;
    }
    P2Halves(l);
    AreaTwoLeft(F);
    FftFinish(tin, ti, buf, o, F, f, L, d, P);
  }

  lemma FftStart(v: seq<limb>, P: seq<int>, f: Field, d: nat, L: nat)
    requires RootAt(f, d, L) && P == Ints(v)
    ensures Stage(v, P, Root(f, d, L), Root(f, d, L), 1, |v|, f.m) && Area(|v|, 1) == |v| && L >= 1
  {
    RootFacts(f, d, L);
    StageStart(v, P, Root(f, d, L), f.m);
  }
}
