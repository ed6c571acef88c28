/** Carry and borrow loops over limb arrays (libbf.c, mp_* helpers).
    A C pointer into a limb buffer is an array together with an offset, so calls that read and
    write the same buffer keep their aliasing. */
module LimbArith {
  import opened Limbs

  /** Positions outside [lo, hi) keep their limb. */
  twostate predicate Untouched(a: array<limb>, lo: int, hi: int)
    reads a
  {
    forall j :: 0 <= j < a.Length && !(lo <= j < hi) ==> a[j] == old(a[j])
  }

  /** An operand may coincide with the result or be disjoint from it, but not overlap it otherwise. */
  predicate Separate(res: array<limb>, ro: nat, a: array<limb>, ao: nat, n: nat) {
    res != a || ro == ao || ro + n <= ao || ao + n <= ro
  }

  ghost function Zeros(n: nat): (z: seq<limb>)
    ensures |z| == n && Val(z) == 0
  {
    var z := seq(n, i => 0);
    ValZeros(z);
    z
  }

  /** The limbs R with carry k out are the low |R| limbs of A + m * B + c. */
  ghost predicate Linear(R: seq<limb>, A: seq<limb>, B: seq<limb>, m: int, c: int, k: int) {
    && |R| <= |A| == |B|
    && Val(R) + Mul(k, Pow(|R|)) == Val(A[..|R|]) + Mul(m, Val(B[..|R|])) + c
  }

  lemma LinearStart(A: seq<limb>, B: seq<limb>, m: int, c: int)
    requires |A| == |B|
    ensures Linear([], A, B, m, c, c)
  {
    assert A[..0] == B[..0] == [];
    assert Pow(0) == 1 && Mul(m, 0) == 0;
  }

  /** Every carry loop below advances by this step: one limb is written and the new carry is
      whatever makes the limb equation exact. */
  lemma LinearStep(R: seq<limb>, A: seq<limb>, B: seq<limb>, m: int, c: int, k: int, s: limb, k': int)
    requires Linear(R, A, B, m, c, k) && |R| < |A|
    requires A[|R|] + m * B[|R|] + k == s + k' * BASE
    ensures Linear(R + [s], A, B, m, c, k')
  {
    var p := Pow(|R|);
    var v, w := A[|R|], B[|R|];
    ValSnoc(R, s);
    ValPrefix(A, |R|);
    ValPrefix(B, |R|);
    assert (v + m * w + k) * p == (s + k' * BASE) * p;
    MulDist(v + m * w, k, p);
    MulDist(v, m * w, p);
    MulDist(s, k' * BASE, p);
    MulAssoc(k', BASE, p);
    MulAssoc(m, w, p);
    MulDist(Val(B[..|R|]), w * p, m);
  }

  lemma LinearDone(R: seq<limb>, A: seq<limb>, B: seq<limb>, m: int, c: int, k: int)
    requires Linear(R, A, B, m, c, k) && |R| == |A|
    ensures Val(R) + Mul(k, Pow(|R|)) == Val(A) + Mul(m, Val(B)) + c
  {
    assert A[..|R|] == A && B[..|R|] == B;
  }

  /** When the carry dies out the remaining limbs of A are already final. */
  lemma LinearTail(R: seq<limb>, A: seq<limb>, B: seq<limb>, m: int, c: int)
    requires Linear(R, A, B, m, c, 0) && Val(B) == 0
    ensures Val(R + A[|R|..]) == Val(A) + c
  {
    ValConcat(R, A[|R|..]);
    ValSplit(A, |R|);
    ValZeros(B);
    ValZeros(B[..|R|]);
  }

  /** The limbs R with borrow k out are the low |R| limbs of A - m * B - c. */
  ghost predicate Borrowed(R: seq<limb>, A: seq<limb>, B: seq<limb>, m: int, c: int, k: int) {
    && |R| <= |A| == |B|
    && Val(R) - Mul(k, Pow(|R|)) == Val(A[..|R|]) - Mul(m, Val(B[..|R|])) - c
  }

  lemma BorrowStart(A: seq<limb>, B: seq<limb>, m: int, c: int)
    requires |A| == |B|
    ensures Borrowed([], A, B, m, c, c)
  {
    assert A[..0] == B[..0] == [];
    assert Pow(0) == 1 && Mul(m, 0) == 0;
  }

  lemma BorrowStep(R: seq<limb>, A: seq<limb>, B: seq<limb>, m: int, c: int, k: int, s: limb, k': int)
    requires Borrowed(R, A, B, m, c, k) && |R| < |A|
    requires A[|R|] - m * B[|R|] - k == s - k' * BASE
    ensures Borrowed(R + [s], A, B, m, c, k')
  {
    var p := Pow(|R|);
    var v, w := A[|R|], B[|R|];
    ValSnoc(R, s);
    ValPrefix(A, |R|);
    ValPrefix(B, |R|);
    assert (v - m * w - k) * p == (s - k' * BASE) * p;
    MulDist(v - m * w, k, p);
    MulDist(v, m * w, p);
    MulDist(s, k' * BASE, p);
    MulAssoc(k', BASE, p);
    MulAssoc(m, w, p);
    MulDist(Val(B[..|R|]), w * p, m);
  }

  lemma BorrowDone(R: seq<limb>, A: seq<limb>, B: seq<limb>, m: int, c: int, k: int)
    requires Borrowed(R, A, B, m, c, k) && |R| == |A|
    ensures Val(R) - Mul(k, Pow(|R|)) == Val(A) - Mul(m, Val(B)) - c
  {
    assert A[..|R|] == A && B[..|R|] == B;
  }

  lemma BorrowTail(R: seq<limb>, A: seq<limb>, B: seq<limb>, m: int, c: int)
    requires Borrowed(R, A, B, m, c, 0) && Val(B) == 0
    ensures Val(R + A[|R|..]) == Val(A) - c
  {
    ValConcat(R, A[|R|..]);
    ValSplit(A, |R|);
    ValZeros(B);
    ValZeros(B[..|R|]);
  }

  // One limb of each loop, with the wrapped comparisons the source uses to find its carry.

  method AddLimb(v: limb, w: limb, k: limb) returns (s: limb, k': limb)
    requires k <= 1
    ensures v + w + k == s + k' * BASE && k' <= 1
  {
    var a := (v + w) % BASE;
    var k1 := if a < v then 1 else 0;
    s := (a + k) % BASE;
    k' := if s < k || k1 == 1 then 1 else 0;
  }

  method SubLimb(v: limb, w: limb, k: limb) returns (s: limb, k': limb)
    requires k <= 1
    ensures v - w - k == s - k' * BASE && k' <= 1
  {
    var a := (v - w) % BASE;
    var k1 := if a > v then 1 else 0;
    s := (a - k) % BASE;
    k' := if s > a || k1 == 1 then 1 else 0;
  }

  lemma ProductBound(v: limb, b: limb)
    ensures 0 <= v * b <= (BASE - 1) * (BASE - 1)
  {
    MulMono(0, v, b);
    MulMono(v, BASE - 1, b);
    MulMono(b, BASE - 1, BASE - 1);
  }

  /** A double-limb t splits into its low limb and its high limb. */
  method MulAddLimb(v: limb, b: limb, l: limb, w: limb) returns (s: limb, l': limb)
    ensures v * b + l + w == s + l' * BASE
  {
    ProductBound(v, b);
    var t := v * b + l + w;
    s := t % BASE;
    l' := t / BASE;
  }

  /** The double-limb difference wraps modulo BASE^2; the borrow is the negated high limb. */
  method SubMulLimb(w: limb, v: limb, b: limb, l: limb) returns (s: limb, l': limb)
    ensures w - v * b - l == s - l' * BASE
  {
    ProductBound(v, b);
    var t := (w - v * b - l) % DOUBLE_BASE;
    assert t == if w - v * b - l < 0 then w - v * b - l + DOUBLE_BASE else w - v * b - l;
    s := t % BASE;
    l' := (0 - t / BASE) % BASE;
  }

  /** libbf.c mp_add: res = a + b + carry; returns the carry out. */
  method MpAdd(res: array<limb>, ro: nat, a: array<limb>, ao: nat, b: array<limb>, bo: nat, n: nat, carry: limb)
    returns (k: limb)
    requires ro + n <= res.Length && ao + n <= a.Length && bo + n <= b.Length
    requires Separate(res, ro, a, ao, n) && Separate(res, ro, b, bo, n)
    requires carry <= 1
    modifies res
    ensures k <= 1
    ensures Val(res[ro..ro + n]) + Mul(k, Pow(n)) == old(Val(a[ao..ao + n])) + old(Val(b[bo..bo + n])) + carry
    ensures Untouched(res, ro, ro + n)
  {
    hide Mul, Val, Pow;
    ghost var A, B := a[ao..ao + n], b[bo..bo + n];
    ghost var R: seq<limb> := [];
    k := carry;
    LinearStart(A, B, 1, carry);
    var i := 0;
    while i < n
      invariant 0 <= i <= n && k <= 1
      invariant forall j :: ao + i <= j < ao + n ==> a[j] == A[j - ao]
      invariant forall j :: bo + i <= j < bo + n ==> b[j] == B[j - bo]
      invariant |R| == i && forall j :: ro <= j < ro + i ==> res[j] == R[j - ro]
      invariant Linear(R, A, B, 1, carry, k)
      invariant Untouched(res, ro, ro + i)
    {
      var s, k' := AddLimb(a[ao + i], b[bo + i], k);
      LinearStep(R, A, B, 1, carry, k, s, k');
      res[ro + i] := s;
      R := R + [s];
      k := k';
      i := i + 1;
    }
    assert res[ro..ro + n] == R;
    MulUnit(Val(B));
    LinearDone(R, A, B, 1, carry, k);
  }

  /** libbf.c mp_add_ui: adds one limb in place and stops as soon as the carry is gone. */
  method MpAddUi(tab: array<limb>, o: nat, b: limb, n: nat) returns (k: limb)
    requires o + n <= tab.Length
    modifies tab
    ensures n > 0 ==> k <= 1
    ensures Val(tab[o..o + n]) + Mul(k, Pow(n)) == old(Val(tab[o..o + n])) + b
    ensures Untouched(tab, o, o + n)
  {
    hide Mul, Val, Pow;
    ghost var A, Z := tab[o..o + n], Zeros(n);
    ghost var R: seq<limb> := [];
    k := b;
    LinearStart(A, Z, 0, b);
    var i := 0;
    while i < n
      invariant 0 <= i <= n && (i > 0 ==> k <= 1)
      invariant forall j :: o + i <= j < o + n ==> tab[j] == A[j - o]
      invariant |R| == i && forall j :: o <= j < o + i ==> tab[j] == R[j - o]
      invariant Linear(R, A, Z, 0, b, k)
      invariant Untouched(tab, o, o + i)
    {
      if k == 0 {
        MulUnit(Pow(n));
        LinearTail(R, A, Z, 0, b);
        assert tab[o..o + n] == R + A[i..];
        return;
      }
      var s := (tab[o + i] + k) % BASE;
      var k' := if s < k then 1 else 0;
      LinearStep(R, A, Z, 0, b, k, s, k');
      tab[o + i] := s;
      R := R + [s];
      k := k';
      i := i + 1;
    }
    assert tab[o..o + n] == R;
    MulUnit(Val(Z));
    LinearDone(R, A, Z, 0, b, k);
  }

  /** libbf.c mp_sub: res = a - b - carry; returns the borrow out. */
  method MpSub(res: array<limb>, ro: nat, a: array<limb>, ao: nat, b: array<limb>, bo: nat, n: nat, carry: limb)
    returns (k: limb)
    requires ro + n <= res.Length && ao + n <= a.Length && bo + n <= b.Length
    requires Separate(res, ro, a, ao, n) && Separate(res, ro, b, bo, n)
    requires carry <= 1
    modifies res
    ensures k <= 1
    ensures Val(res[ro..ro + n]) - Mul(k, Pow(n)) == old(Val(a[ao..ao + n])) - old(Val(b[bo..bo + n])) - carry
    ensures Untouched(res, ro, ro + n)
  {
    hide Mul, Val, Pow;
    ghost var A, B := a[ao..ao + n], b[bo..bo + n];
    ghost var R: seq<limb> := [];
    k := carry;
    BorrowStart(A, B, 1, carry);
    var i := 0;
    while i < n
      invariant 0 <= i <= n && k <= 1
      invariant forall j :: ao + i <= j < ao + n ==> a[j] == A[j - ao]
      invariant forall j :: bo + i <= j < bo + n ==> b[j] == B[j - bo]
      invariant |R| == i && forall j :: ro <= j < ro + i ==> res[j] == R[j - ro]
      invariant Borrowed(R, A, B, 1, carry, k)
      invariant Untouched(res, ro, ro + i)
    {
      var s, k' := SubLimb(a[ao + i], b[bo + i], k);
      BorrowStep(R, A, B, 1, carry, k, s, k');
      res[ro + i] := s;
      R := R + [s];
      k := k';
      i := i + 1;
    }
    assert res[ro..ro + n] == R;
    MulUnit(Val(B));
    BorrowDone(R, A, B, 1, carry, k);
  }

  /** libbf.c mp_neg: res = 0 - b - carry; returns the borrow out. */
  method MpNeg(res: array<limb>, ro: nat, b: array<limb>, bo: nat, n: nat, carry: limb) returns (k: limb)
    requires ro + n <= res.Length && bo + n <= b.Length
    requires Separate(res, ro, b, bo, n)
    requires carry <= 1
    modifies res
    ensures k <= 1
    ensures Val(res[ro..ro + n]) - Mul(k, Pow(n)) == 0 - old(Val(b[bo..bo + n])) - carry
    ensures Untouched(res, ro, ro + n)
  {
    hide Mul, Val, Pow;
    ghost var A, B := Zeros(n), b[bo..bo + n];
    ghost var R: seq<limb> := [];
    k := carry;
    BorrowStart(A, B, 1, carry);
    var i := 0;
    while i < n
      invariant 0 <= i <= n && k <= 1
      invariant forall j :: bo + i <= j < bo + n ==> b[j] == B[j - bo]
      invariant |R| == i && forall j :: ro <= j < ro + i ==> res[j] == R[j - ro]
      invariant Borrowed(R, A, B, 1, carry, k)
      invariant Untouched(res, ro, ro + i)
    {
      var s, k' := SubLimb(0, b[bo + i], k);
      BorrowStep(R, A, B, 1, carry, k, s, k');
      res[ro + i] := s;
      R := R + [s];
      k := k';
      i := i + 1;
    }
    assert res[ro..ro + n] == R;
    MulUnit(Val(B));
    BorrowDone(R, A, B, 1, carry, k);
  }

  /** libbf.c mp_sub_ui: subtracts one limb in place, stopping once there is no borrow. */
  method MpSubUi(tab: array<limb>, o: nat, b: limb, n: nat) returns (k: limb)
    requires o + n <= tab.Length
    modifies tab
    ensures n > 0 ==> k <= 1
    ensures Val(tab[o..o + n]) - Mul(k, Pow(n)) == old(Val(tab[o..o + n])) - b
    ensures Untouched(tab, o, o + n)
  {
    hide Mul, Val, Pow;
    ghost var A, Z := tab[o..o + n], Zeros(n);
    ghost var R: seq<limb> := [];
    k := b;
    BorrowStart(A, Z, 0, b);
    var i := 0;
    while i < n
      invariant 0 <= i <= n && (i > 0 ==> k <= 1)
      invariant forall j :: o + i <= j < o + n ==> tab[j] == A[j - o]
      invariant |R| == i && forall j :: o <= j < o + i ==> tab[j] == R[j - o]
      invariant Borrowed(R, A, Z, 0, b, k)
      invariant Untouched(tab, o, o + i)
    {
      var v := tab[o + i];
      var s := (v - k) % BASE;
      var k' := if s > v then 1 else 0;
      BorrowStep(R, A, Z, 0, b, k, s, k');
      tab[o + i] := s;
      R := R + [s];
      k := k';
      i := i + 1;
      if k == 0 {
        MulUnit(Pow(n));
        BorrowTail(R, A, Z, 0, b);
        assert tab[o..o + n] == R + A[i..];
        return;
      }
    }
    assert tab[o..o + n] == R;
    MulUnit(Val(Z));
    BorrowDone(R, A, Z, 0, b, k);
  }

  /** libbf.c mp_mul1: res = a * b + l; returns the high limb. */
  method MpMul1(res: array<limb>, ro: nat, a: array<limb>, ao: nat, n: nat, b: limb, l0: limb) returns (l: limb)
    requires ro + n <= res.Length && ao + n <= a.Length
    requires Separate(res, ro, a, ao, n)
    modifies res
    ensures Val(res[ro..ro + n]) + Mul(l, Pow(n)) == Mul(b, old(Val(a[ao..ao + n]))) + l0
    ensures Untouched(res, ro, ro + n)
  {
    hide Mul, Val, Pow;
    ghost var A, Z := a[ao..ao + n], Zeros(n);
    ghost var R: seq<limb> := [];
    l := l0;
    LinearStart(Z, A, b, l0);
    var i := 0;
    while i < n
      invariant 0 <= i <= n
      invariant forall j :: ao + i <= j < ao + n ==> a[j] == A[j - ao]
      invariant |R| == i && forall j :: ro <= j < ro + i ==> res[j] == R[j - ro]
      invariant Linear(R, Z, A, b, l0, l)
      invariant Untouched(res, ro, ro + i)
    {
      var s, l' := MulAddLimb(a[ao + i], b, l, 0);
      LinearStep(R, Z, A, b, l0, l, s, l');
      res[ro + i] := s;
      R := R + [s];
      l := l';
      i := i + 1;
    }
    assert res[ro..ro + n] == R;
    LinearDone(R, Z, A, b, l0, l);
  }

  /** libbf.c mp_add_mul1: res += a * b; returns the high limb. */
  method MpAddMul1(res: array<limb>, ro: nat, a: array<limb>, ao: nat, n: nat, b: limb) returns (l: limb)
    requires ro + n <= res.Length && ao + n <= a.Length
    requires Separate(res, ro, a, ao, n)
    modifies res
    ensures Val(res[ro..ro + n]) + Mul(l, Pow(n)) == old(Val(res[ro..ro + n])) + Mul(b, old(Val(a[ao..ao + n])))
    ensures Untouched(res, ro, ro + n)
  {
    hide Mul, Val, Pow;
    ghost var A, C := a[ao..ao + n], res[ro..ro + n];
    ghost var R: seq<limb> := [];
    l := 0;
    LinearStart(C, A, b, 0);
    var i := 0;
    while i < n
      invariant 0 <= i <= n
      invariant forall j :: ao + i <= j < ao + n ==> a[j] == A[j - ao]
      invariant forall j :: ro + i <= j < ro + n ==> res[j] == C[j - ro]
      invariant |R| == i && forall j :: ro <= j < ro + i ==> res[j] == R[j - ro]
      invariant Linear(R, C, A, b, 0, l)
      invariant Untouched(res, ro, ro + i)
    {
      var s, l' := MulAddLimb(a[ao + i], b, l, res[ro + i]);
      LinearStep(R, C, A, b, 0, l, s, l');
      res[ro + i] := s;
      R := R + [s];
      l := l';
      i := i + 1;
    }
    assert res[ro..ro + n] == R;
    LinearDone(R, C, A, b, 0, l);
  }

  /** libbf.c mp_sub_mul1: res -= a * b; returns the limb to subtract from the next position. */
  method MpSubMul1(res: array<limb>, ro: nat, a: array<limb>, ao: nat, n: nat, b: limb) returns (l: limb)
    requires ro + n <= res.Length && ao + n <= a.Length
    requires Separate(res, ro, a, ao, n)
    modifies res
    ensures Val(res[ro..ro + n]) - Mul(l, Pow(n)) == old(Val(res[ro..ro + n])) - Mul(b, old(Val(a[ao..ao + n])))
    ensures Untouched(res, ro, ro + n)
  {
    hide Mul, Val, Pow;
    ghost var A, C := a[ao..ao + n], res[ro..ro + n];
    ghost var R: seq<limb> := [];
    l := 0;
    BorrowStart(C, A, b, 0);
    var i := 0;
    while i < n
      invariant 0 <= i <= n
      invariant forall j :: ao + i <= j < ao + n ==> a[j] == A[j - ao]
      invariant forall j :: ro + i <= j < ro + n ==> res[j] == C[j - ro]
      invariant |R| == i && forall j :: ro <= j < ro + i ==> res[j] == R[j - ro]
      invariant Borrowed(R, C, A, b, 0, l)
      invariant Untouched(res, ro, ro + i)
    {
      var s, l' := SubMulLimb(res[ro + i], a[ao + i], b, l);
      BorrowStep(R, C, A, b, 0, l, s, l');
      res[ro + i] := s;
      R := R + [s];
      l := l';
      i := i + 1;
    }
    assert res[ro..ro + n] == R;
    BorrowDone(R, C, A, b, 0, l);
  }

  /** libbf.c mp_shr: shifts right by 1..63 bits, feeding in the low bits of high at the top.
      The two parts joined by the source's bitwise or have no bit in common. */
  method MpShr(res: array<limb>, ro: nat, a: array<limb>, ao: nat, n: nat, shift: nat, high: limb) returns (rem: limb)
    requires ro + n <= res.Length && ao + n <= a.Length
    requires Separate(res, ro, a, ao, n)
    requires 1 <= shift < 64
    modifies res
    ensures rem < P2(shift)
    ensures Mul(Val(res[ro..ro + n]), P2(shift)) + rem == old(Val(a[ao..ao + n])) + Mul(high % P2(shift), Pow(n))
    ensures Untouched(res, ro, ro + n)
  {
    hide Mul, Val, Pow;
    ghost var A := a[ao..ao + n];
    ghost var R: seq<limb> := [];
    P2Split(shift);
    var l: limb := high;
    ShiftStart(high % P2(shift), P2(shift), A);
    var i := n;
    while i > 0
      invariant 0 <= i <= n
      invariant forall j :: ao <= j < ao + i ==> a[j] == A[j - ao]
      invariant |R| == n - i && forall j :: ro + i <= j < ro + n ==> res[j] == R[j - ro - i]
      invariant Mul(Val(R), P2(shift)) + l % P2(shift) == Val(A[i..]) + Mul(high % P2(shift), Pow(n - i))
      invariant Untouched(res, ro + i, ro + n)
    {
      i := i - 1;
      var v := a[ao + i];
      var x := ShiftLimb(v, l, shift);
      ShiftStep(R, A[i + 1..], v, x, l % P2(shift), P2(shift), high % P2(shift));
      assert A[i..] == [v] + A[i + 1..];
      res[ro + i] := x;
      R := [x] + R;
      l := v;
    }
    assert res[ro..ro + n] == R && A[0..] == A;
    rem := l % P2(shift);
  }

  lemma ShiftStart(h: int, p: int, A: seq<limb>)
    ensures Mul(Val([]), p) + h == Val(A[|A|..]) + Mul(h, Pow(0))
  {
    assert Pow(0) == 1;
  }

  /** Joins the high bits of v with the low bits of l. */
  method ShiftLimb(v: limb, l: limb, shift: nat) returns (x: limb)
    requires 1 <= shift < 64
    ensures x * P2(shift) + v % P2(shift) == v + (l % P2(shift)) * BASE
  {
    var p, q := P2(shift), P2(64 - shift);
    P2Split(shift);
    ShiftedLow(l, p, q);
    QuotientBelow(v, p, q);
    JoinArith(v, v / p, v % p, l % p, p, q);
    x := v / p + (l * q) % BASE;
  }

  lemma JoinArith(v: int, vd: int, vm: int, lm: int, p: int, q: int)
    requires p * q == BASE && v == vd * p + vm && 0 <= lm < p && vd <= q - 1 && q >= 0
    ensures (vd + lm * q) * p + vm == v + lm * BASE
    ensures vd + lm * q < BASE
  {
    MulDist(vd, lm * q, p);
    assert (lm * q) * p == lm * (p * q);
    MulMono(lm, p - 1, q);
    MulDist(p, 1, q);
  }

  lemma ShiftedLow(l: nat, p: nat, q: nat)
    requires p > 0 && p * q == BASE
    ensures (l * q) % BASE == (l % p) * q
  {
    var d, m := l / p, l % p;
    assert l == d * p + m;
    MulDist(d * p, m, q);
    MulAssoc(d, p, q);
    MulMono(m, p - 1, q);
    MulMono(0, m, q);
    MulDist(p, 1, q);
    DivModUnique(l * q, BASE, d, m * q);
  }

  lemma QuotientBelow(v: nat, p: nat, q: nat)
    requires p > 0 && v < p * q
    ensures v / p <= q - 1
  {
    var d := v / p;
    assert v == d * p + v % p;
    if d >= q {
      MulMono(q, d, p);
    }
  }

  lemma ShiftStep(R: seq<limb>, A: seq<limb>, v: limb, x: limb, low: int, p: int, h: int)
    requires |R| == |A| && p > 0
    requires Mul(Val(R), p) + low == Val(A) + Mul(h, Pow(|R|))
    requires x * p + v % p == v + low * BASE
    ensures Mul(Val([x] + R), p) + v % p == Val([v] + A) + Mul(h, Pow(|R| + 1))
  {
    ValCons(x, R);
    ValCons(v, A);
    ShiftArith(Val(R), Val(A), Val([x] + R), x, v, v % p, low, p, h, Pow(|R|), Pow(|R| + 1));
  }

  lemma ShiftArith(r: int, a: int, r': int, x: int, v: int, vm: int, low: int, p: int, h: int, w: int, w': int)
    requires r * p + low == a + h * w
    requires x * p + vm == v + low * BASE
    requires r' == x + BASE * r && w' == w * BASE
    ensures r' * p + vm == v + BASE * a + h * w'
  {
    MulDist(x, BASE * r, p);
    assert BASE * r * p == BASE * (r * p);
    assert h * (w * BASE) == BASE * (h * w);
  }

  /** One row of the schoolbook product: adds a * b at position i of the result and stores the limb
      carried out above it. */
  method MulRow(res: array<limb>, ro: nat, i: nat, a: array<limb>, ao: nat, n: nat, b: limb)
    returns (ghost mid: seq<limb>, r: limb)
    requires ro + i + n < res.Length && ao + n <= a.Length
    requires res != a
    modifies res
    ensures |mid| == n && res[ro..ro + i + n + 1] == old(res[ro..ro + i]) + (mid + [r])
    ensures Val(mid) + Mul(r, Pow(n)) == old(Val(res[ro + i..ro + i + n])) + Mul(b, Val(a[ao..ao + n]))
    ensures Untouched(res, ro, ro + i + n + 1)
  {
    hide Mul, Val, Pow;
    r := MpAddMul1(res, ro + i, a, ao, n, b);
    mid := res[ro + i..ro + i + n];
    assert res[ro..ro + i] == old(res[ro..ro + i]);
    res[ro + i + n] := r;
  }

  /** The loop body of mp_mul_basecase: row i extends the product by one limb of the second factor. */
  method MulNextRow(res: array<limb>, ro: nat, a: array<limb>, ao: nat, n1: nat, b: array<limb>, bo: nat, i: nat,
                    ghost A: seq<limb>, ghost B: seq<limb>)
    requires ro + i + n1 < res.Length && ao + n1 <= a.Length && bo + i < b.Length && i < |B|
    requires res != a && res != b
    requires A == a[ao..ao + n1] && b[bo + i] == B[i]
    requires Val(res[ro..ro + i + n1]) == Mul(Val(A), Val(B[..i]))
    modifies res
    ensures Val(res[ro..ro + i + n1 + 1]) == Mul(Val(A), Val(B[..i + 1]))
    ensures Untouched(res, ro, ro + i + n1 + 1)
  {
    hide Mul, Val, Pow;
    ghost var low, mid := res[ro..ro + i], res[ro + i..ro + i + n1];
    assert res[ro..ro + i + n1] == low + mid;
    ghost var mid';
    var r;
    mid', r := MulRow(res, ro, i, a, ao, n1, b[bo + i]);
    RowStep(low, mid, mid', r, A, B, i);
  }

  /** libbf.c mp_mul_basecase: the schoolbook product, one row per limb of the second factor. */
  method MpMulBasecase(res: array<limb>, ro: nat, a: array<limb>, ao: nat, n1: nat, b: array<limb>, bo: nat, n2: nat)
    requires ro + n1 + n2 <= res.Length && ao + n1 <= a.Length && bo + n2 <= b.Length
    requires n2 >= 1
    requires res != a && res != b
    modifies res
    ensures Val(res[ro..ro + n1 + n2]) == Mul(Val(a[ao..ao + n1]), Val(b[bo..bo + n2]))
    ensures Untouched(res, ro, ro + n1 + n2)
  {
    hide Mul, Val, Pow;
    ghost var A, B := a[ao..ao + n1], b[bo..bo + n2];
    var r := MpMul1(res, ro, a, ao, n1, b[bo], 0);
    FirstRow(res[ro..ro + n1], r, A, B);
    ghost var R := res[ro..ro + n1] + [r];
    res[ro + n1] := r;
    var i := 1;
    assert res[ro..ro + i + n1] == R;
    while i < n2
      invariant 1 <= i <= n2
      invariant Val(res[ro..ro + i + n1]) == Mul(Val(A), Val(B[..i]))
      invariant Untouched(res, ro, ro + i + n1)
    {
      MulNextRow(res, ro, a, ao, n1, b, bo, i, A, B);
      i := i + 1;
    }
    assert B[..n2] == B;
  }

  lemma FirstRow(R: seq<limb>, r: limb, A: seq<limb>, B: seq<limb>)
    requires |R| == |A| && |B| > 0
    requires Val(R) + Mul(r, Pow(|R|)) == Mul(B[0], Val(A))
    ensures Val(R + [r]) == Mul(Val(A), Val(B[..1]))
  {
    ValSnoc(R, r);
    ValOne(B[..1]);
    MulComm(B[0], Val(B[..1]), Val(A));
  }

  lemma MulComm(x: int, x': int, y: int)
    requires x == x'
    ensures x * y == y * x'
  {}

  lemma RowStep(low: seq<limb>, mid: seq<limb>, mid': seq<limb>, r: limb, A: seq<limb>, B: seq<limb>, i: nat)
    requires |mid| == |mid'| == |A| && |low| == i < |B|
    requires Val(low + mid) == Mul(Val(A), Val(B[..i]))
    requires Val(mid') + Mul(r, Pow(|mid'|)) == Val(mid) + Mul(B[i], Val(A))
    ensures Val(low + (mid' + [r])) == Mul(Val(A), Val(B[..i + 1]))
  {
    ValConcat(low, mid);
    ValConcat(low, mid' + [r]);
    ValSnoc(mid', r);
    ValPrefix(B, i);
    RowArith(Val(low), Val(mid), Val(mid' + [r]), B[i], Val(A), Val(B[..i]), Val(B[..i + 1]), Pow(|low|));
  }

  lemma RowArith(l: int, m: int, m': int, b: int, va: int, vb: int, vb': int, p: int)
    requires l + p * m == va * vb
    requires m' == m + b * va
    requires vb' == vb + b * p
    ensures l + p * m' == va * vb'
  {
    MulDist(m, b * va, p);
    MulDist(vb, b * p, va);
    assert p * (b * va) == va * (b * p);
  }

  /** libbf.c mp_cmp: compares from the most significant limb down. */
  method MpCmp(a: array<limb>, ao: nat, b: array<limb>, bo: nat, n: nat) returns (c: int)
    requires ao + n <= a.Length && bo + n <= b.Length
    ensures c == if Val(a[ao..ao + n]) < Val(b[bo..bo + n]) then -1
                 else if Val(a[ao..ao + n]) == Val(b[bo..bo + n]) then 0 else 1
  {
    hide Mul, Val, Pow;
    ghost var A, B := a[ao..ao + n], b[bo..bo + n];
    var i := n;
    while i > 0
      invariant 0 <= i <= n
      invariant A[i..] == B[i..]
    {
      i := i - 1;
      if a[ao + i] != b[bo + i] {
        CompareAt(A, B, i);
        CompareAt(B, A, i);
        return if a[ao + i] < b[bo + i] then -1 else 1;
      }
      assert A[i..] == [A[i]] + A[i + 1..] && B[i..] == [B[i]] + B[i + 1..];
    }
    assert A == A[0..] && B == B[0..];
    return 0;
  }

  /** The highest differing limb decides the comparison. */
  lemma CompareAt(A: seq<limb>, B: seq<limb>, i: nat)
    requires |A| == |B| && i < |A|
    requires A[i + 1..] == B[i + 1..]
    ensures A[i] < B[i] ==> Val(A) < Val(B)
  {
    if A[i] < B[i] {
      ValSplit(A, i + 1);
      ValSplit(B, i + 1);
      ValTopLess(A[..i + 1], B[..i + 1]);
    }
  }

  /** libbf.c mp_scan_nz: is some limb nonzero? */
  method MpScanNz(tab: array<limb>, o: nat, n: nat) returns (nz: bool)
    requires o + n <= tab.Length
    ensures nz <==> Val(tab[o..o + n]) != 0
  {
    hide Mul, Val, Pow;
    ValZeros(tab[o..o + n]);
    var i := 0;
    while i < n
      invariant 0 <= i <= n
      invariant forall j :: o <= j < o + i ==> tab[j] == 0
    {
      if tab[o + i] != 0 {
        assert tab[o..o + n][i] != 0;
        return true;
      }
      i := i + 1;
    }
    return false;
  }
}
