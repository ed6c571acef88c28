/** Modular arithmetic of the transform (libbf.c mod_fast, mul_mod_fast, mul_mod_fast2, mul_mod_fast3) and the
    tables ntt_static_init builds: powers of the roots of unity and inverses of the lengths. */
module NttField {
  import LimbDiv
  import opened Limbs
  import opened Congruence
  import opened NttRoots

  /** 2^125, the bound on what mod_fast reduces. */
  const REDUCIBLE: int := BASE * MOD_MIN

  predicate ModulusOk(m: int) {
    MOD_MIN <= m < MOD_MAX && m % 2 == 1
  }

  /** The precomputed quotient of mod_fast. */
  ghost predicate BarrettOk(m: int, mInv: int) {
    ModulusOk(m) && mInv == REDUCIBLE / m
  }

  // Barrett reduction.

  /** The estimated quotient is at most the true one, and at most three below it. */
  lemma BarrettEstimate(r: int, m: int, inv: int, a1: int, q: int)
    requires 0 <= r < REDUCIBLE && BarrettOk(m, inv)
    requires a1 == r / MOD_MIN && q == Mul(a1, inv) / BASE
    ensures 0 <= r - Mul(q, m) < 3 * m
  {
    var s, u, v := REDUCIBLE - inv * m, r - a1 * MOD_MIN, a1 * inv - q * BASE;
    EstimateIdentity(r, m, inv, a1, q, s, u, v);
    assert 0 <= s < m && 0 <= u < MOD_MIN && 0 <= v < BASE;
    EstimateRange(r - q * m, m, u, (r - u), s, v);
  }

  lemma EstimateIdentity(r: int, m: int, inv: int, a1: int, q: int, s: int, u: int, v: int)
    requires s == REDUCIBLE - inv * m && u == r - a1 * MOD_MIN && v == a1 * inv - q * BASE
    ensures (r - q * m) * REDUCIBLE == u * REDUCIBLE + (r - u) * s + v * m * MOD_MIN
  {
    var w := a1 * inv;
    assert w * m == a1 * (inv * m);
    assert a1 * (REDUCIBLE - s) == a1 * REDUCIBLE - a1 * s by { MulDist(REDUCIBLE, s, a1); }
    assert v * m == w * m - q * m * BASE by { MulDist(w, q * BASE, m); assert q * BASE * m == q * m * BASE; }
    assert (r - u) * s == a1 * s * MOD_MIN;
  }

  lemma EstimateRange(d: int, m: int, u: int, ru: int, s: int, v: int)
    requires MOD_MIN <= m && 0 <= s < m && 0 <= u < MOD_MIN && 0 <= v < BASE && 0 <= ru < REDUCIBLE
    requires d * REDUCIBLE == u * REDUCIBLE + ru * s + v * m * MOD_MIN
    ensures 0 <= d < 3 * m
  {
    MulMono(0, ru, s);
    MulMono(ru, REDUCIBLE, s);
    MulMono(0, v, m);
    MulMono(v, BASE - 1, m);
  }

  /** The sign mask of a 64-bit word, halved: all ones for a negative word. */
  function SignMask(r1: int): int
    requires r1 == 0 || r1 == BASE - 1
  {
    if r1 >= HALF then BASE - 1 else 0
  }

  /** x & mask for a mask of all zeros or all ones. */
  function Masked(x: limb, mask: int): limb
    requires mask == 0 || mask == BASE - 1
  {
    if mask == 0 then 0 else x
  }

  /** mod_fast: the exact remainder, from an estimate and two masked corrections modulo 2^128. */
  method ModFast(r: int, m: limb, mInv: limb) returns (res: limb)
    requires 0 <= r < REDUCIBLE && BarrettOk(m, mInv)
    ensures res < m && Cong(res, r, m)
  {
    hide Mul, Cong;
    var a1 := r / MOD_MIN;
    var q := Mul(a1, mInv) / BASE;
    BarrettEstimate(r, m, mInv, a1, q);
    assert ModulusOk(m);
    hide BarrettOk;
    ghost var d := r - Mul(q, m);
    var t := (r - Mul(q, m) - m * 2) % DOUBLE_BASE;
    res := CorrectSigned(t, m, d - m * 2);
    FinalRemainder(r, m, q, d, res);
  }

  /** The two masked additions: t is the 128-bit form of e. */
  method CorrectSigned(t: int, m: limb, ghost e: int) returns (res: limb)
    requires ModulusOk(m) && t == e % DOUBLE_BASE && -2 * m <= e < m
    ensures res == if e + m < 0 then e + 2 * m else if e < 0 then e + m else e
  {
    TopWord(e);
    var t0 := SignMask(t / BASE);
    var t' := (t + Masked(m, t0)) % DOUBLE_BASE;
    ghost var e' := if e < 0 then e + m else e;
    assert t' == e' % DOUBLE_BASE;
    TopWord(e');
    res := (t' % BASE + Masked(m, t' / BASE)) % BASE;
  }

  lemma FinalRemainder(r: int, m: int, q: int, d: int, res: int)
    requires d == r - Mul(q, m) && 0 <= d < 3 * m && 0 < m
    requires res == if d >= 2 * m then d - 2 * m else if d >= m then d - m else d
    ensures 0 <= res < m && Cong(res, r, m)
  {
    var k := if d >= 2 * m then 2 else if d >= m then 1 else 0;
    MulDist(q, k, m);
    MulNeg(q + k, m);
    CongWitness(res, r, -(q + k), m);
  }

  /** High and low word of a small signed number modulo 2^128. */
  lemma TopWord(e: int)
    requires -BASE < e < BASE
    ensures (e % DOUBLE_BASE) / BASE == if e < 0 then BASE - 1 else 0
    ensures (e % DOUBLE_BASE) % BASE == if e < 0 then e + BASE else e
    ensures e % DOUBLE_BASE == if e < 0 then e + DOUBLE_BASE else e
  {}

  /** mul_mod_fast */
  method MulModFast(a: limb, b: limb, m: limb, mInv: limb) returns (res: limb)
    requires Mul(a, b) < REDUCIBLE && BarrettOk(m, mInv)
    ensures res < m && Cong(res, Mul(a, b), m)
  {
    MulMono(0, a, b);
    hide BarrettOk, Cong;
    res := ModFast(Mul(a, b), m, mInv);
  }

  method InitMulModFast(m: limb) returns (mInv: limb)
    requires ModulusOk(m)
    ensures BarrettOk(m, mInv)
  {
    mInv := REDUCIBLE / m;
  }

  /** The precomputed quotient for a constant multiplier. */
  ghost predicate InvOk(b: int, bInv: int, m: int) {
    0 < m && 0 <= b < m && bInv == b * BASE / m && 0 <= bInv < BASE
  }

  method InitMulModFast2(b: limb, m: limb) returns (bInv: limb)
    requires ModulusOk(m) && b < m
    ensures InvOk(b, bInv, m)
  {
    LimbDiv.QuotientFits(b, 0, m);
    bInv := b * BASE / m;
  }

  lemma ConstantEstimate(a: int, b: int, m: int, bInv: int, q: int)
    requires 0 <= a < BASE && InvOk(b, bInv, m) && q == a * bInv / BASE
    ensures 0 <= a * b - q * m < 2 * m
  {
    var s, v := b * BASE - bInv * m, a * bInv - q * BASE;
    assert 0 <= s < m && 0 <= v < BASE;
    ConstantIdentity(a, b, m, bInv, q, s, v);
    ConstantRange(a * b - q * m, a, m, s, v);
  }

  lemma ConstantIdentity(a: int, b: int, m: int, bInv: int, q: int, s: int, v: int)
    requires s == b * BASE - bInv * m && v == a * bInv - q * BASE
    ensures (a * b - q * m) * BASE == a * s + v * m
  {
    assert a * s == a * (b * BASE) - a * (bInv * m) by { MulDist(b * BASE, bInv * m, a); }
    assert v * m == a * bInv * m - q * BASE * m by { MulDist(a * bInv, q * BASE, m); }
    assert a * (bInv * m) == a * bInv * m;
    assert a * (b * BASE) == a * b * BASE;
    assert q * BASE * m == q * m * BASE;
  }

  lemma ConstantRange(d: int, a: int, m: int, s: int, v: int)
    requires d * BASE == a * s + v * m && 0 <= s < m && 0 <= v < BASE && 0 <= a < BASE
    ensures 0 <= d < 2 * m
  {
    MulMono(0, a, s);
    MulMono(a, BASE, s);
    MulMono(0, v, m);
    MulMono(v, BASE - 1, m);
  }

  /** mul_mod_fast3: a * b modulo m, not fully reduced. The products are taken modulo 2^64. */
  method MulModFast3(a: limb, b: limb, m: limb, bInv: limb) returns (r: limb)
    requires ModulusOk(m) && InvOk(b, bInv, m)
    ensures r < 2 * m && Cong(r, Mul(a, b), m)
  {
    var q := Mul(a, bInv) / BASE;
    ConstantEstimate(a, b, m, bInv, q);
    r := (Mul(a, b) - Mul(q, m)) % BASE;
    MulNeg(q, m);
    CongWitness(r, a * b, -q, m);
  }

  /** mul_mod_fast2: fully reduced. */
  method MulModFast2(a: limb, b: limb, m: limb, bInv: limb) returns (r: limb)
    requires ModulusOk(m) && InvOk(b, bInv, m)
    ensures r < m && Cong(r, Mul(a, b), m)
  {
    hide Mul, InvOk;
    r := MulModFast3(a, b, m, bInv);
    if r >= m {
      CongSelf(r, m);
      r := r - m;
    }
  }

  // The tables of one modulus.

  /** ntt_mods_div, ntt_proot_pow, ntt_proot_pow_inv and ntt_len_inv of one modulus. Direction 0 is the
      forward transform, direction 1 the inverse. */
  datatype Field = Field(m: limb, mInv: limb, pow: seq<seq<limb>>, powInv: seq<seq<limb>>, lenInv: seq<(limb, limb)>)

  /** The root of order 2^k of a direction. */
  ghost predicate RootOk(m: int, c: int, cInv: int, k: nat) {
    k >= 1 && InvOk(c, cInv, m) && Cong(Power(c, P2(k - 1)), -1, m)
  }

  ghost predicate DirectionOk(m: int, pow: seq<limb>, powInv: seq<limb>) {
    && |pow| == |powInv| == PROOT_2EXP + 1
    && (forall k :: 1 <= k <= PROOT_2EXP ==> RootOk(m, pow[k], powInv[k], k))
    && (forall k :: 1 <= k < PROOT_2EXP ==> Cong(pow[k], Mul(pow[k + 1], pow[k + 1]), m))
  }

  ghost predicate LengthsOk(m: int, lenInv: seq<(limb, limb)>) {
    |lenInv| == PROOT_2EXP + 1
    && forall k :: 0 <= k <= PROOT_2EXP ==> InvOk(lenInv[k].0, lenInv[k].1, m) && Cong(Mul(lenInv[k].0, P2(k)), 1, m)
  }

  ghost predicate FieldOk(f: Field) {
    && BarrettOk(f.m, f.mInv) && |f.pow| == |f.powInv| == 2
    && DirectionOk(f.m, f.pow[0], f.powInv[0]) && DirectionOk(f.m, f.pow[1], f.powInv[1])
    && (forall k :: 1 <= k <= PROOT_2EXP ==> Cong(Mul(f.pow[0][k], f.pow[1][k]), 1, f.m))
    && LengthsOk(f.m, f.lenInv)
  }

  lemma ProductReducible(a: int, b: int, m: int)
    requires 0 <= a < 2 * m && 0 <= b < m && m < MOD_MAX
    ensures Mul(a, b) < REDUCIBLE && Mul(b, a) < REDUCIBLE
  {
    MulMono(a, 2 * MOD_MAX, b);
    MulMono(b, MOD_MAX, 2 * MOD_MAX);
  }

  /** The inverses of the lengths. */
  method InitLengths(m: limb, mInv: limb) returns (lenInv: seq<(limb, limb)>)
    requires BarrettOk(m, mInv)
    ensures LengthsOk(m, lenInv)
  {
    hide Cong, InvOk, BarrettOk, Mul, P2;
    BarrettModulus(m, mInv);
    var half := (m + 1) / 2;
    var cInv: limb := 1;
    lenInv := [];
    UnitLength(m);
    var i := 0;
    while i <= PROOT_2EXP
      invariant 0 <= i <= PROOT_2EXP + 1 && |lenInv| == i && cInv < m && Cong(Mul(cInv, P2(i)), 1, m)
      invariant forall k :: 0 <= k < i ==> InvOk(lenInv[k].0, lenInv[k].1, m) && Cong(Mul(lenInv[k].0, P2(k)), 1, m)
    {
      var inv := InitMulModFast2(cInv, m);
      lenInv := lenInv + [(cInv, inv)];
      ProductReducible(cInv, half, m);
      var next := MulModFast(cInv, half, m, mInv);
      HalveLength(next, cInv, half, i, m);
      cInv := next;
      i := i + 1;
    }
  }

  lemma BarrettModulus(m: int, mInv: int)
    requires BarrettOk(m, mInv)
    ensures ModulusOk(m)
  {}

  lemma UnitLength(m: int)
    requires m > 0
    ensures Cong(Mul(1, P2(0)), 1, m)
  {}

  lemma HalveLength(next: int, c: int, half: int, i: nat, m: int)
    requires m > 0 && Cong(next, Mul(c, half), m) && Cong(Mul(c, P2(i)), 1, m) && 2 * half == m + 1
    ensures Cong(Mul(next, P2(i + 1)), 1, m)
  {
    var p := P2(i);
    CongMul(next, c * half, 2 * p, 2 * p, m);
    assert c * half * (2 * p) == c * p * (m + 1) by {
      assert c * half * (2 * p) == c * p * (2 * half);
    }
    CongSelf(1, m);
    CongMul(c * p, 1, m + 1, 1, m);
  }

  /** Entry k holds the root squared 51 - k times. */
  ghost predicate Filled(m: int, root: int, c: int, cInv: int, k: int) {
    0 <= k <= PROOT_2EXP && InvOk(c, cInv, m) && Cong(c, Power(root, P2(PROOT_2EXP - k)), m)
  }

  /** The powers of the root of one direction, by repeated squaring. */
  method InitDirection(m: limb, mInv: limb, root: limb) returns (pow: seq<limb>, powInv: seq<limb>)
    requires BarrettOk(m, mInv) && 0 < root < m && Cong(Power(root, P2(50)), -1, m)
    ensures DirectionOk(m, pow, powInv)
    ensures forall k :: 1 <= k <= PROOT_2EXP ==> Cong(pow[k], Power(root, P2(PROOT_2EXP - k)), m)
  {
    hide Cong, InvOk, BarrettOk, Mul, P2, Power, Filled;
    BarrettModulus(m, mInv);
    pow := seq(PROOT_2EXP + 1, i => 0);
    powInv := pow;
    var c: limb := root;
    SquaredStart(root, m);
    CongSwap(Power(root, P2(0)), root, m);
    var i := 0;
    while i < PROOT_2EXP
      invariant 0 <= i <= PROOT_2EXP && |pow| == |powInv| == PROOT_2EXP + 1 && c < m
      invariant Cong(c, Power(root, P2(i)), m)
      invariant forall k :: PROOT_2EXP - i < k <= PROOT_2EXP ==> Filled(m, root, pow[k], powInv[k], k)
    {
      var k := PROOT_2EXP - i;
      var inv := InitMulModFast2(c, m);
      IsFilled(m, root, c, inv, i);
      pow := pow[k := c];
      powInv := powInv[k := inv];
      ProductReducible(c, c, m);
      var next := MulModFast(c, c, m, mInv);
      SquareStep(root, c, next, i, m);
      c := next;
      i := i + 1;
    }
    AllFilled(m, root, pow, powInv);
  }

  lemma IsFilled(m: int, root: int, c: int, cInv: int, i: nat)
    requires i <= PROOT_2EXP && InvOk(c, cInv, m) && Cong(c, Power(root, P2(i)), m)
    ensures Filled(m, root, c, cInv, PROOT_2EXP - i)
  {}

  lemma AllFilled(m: int, root: int, pow: seq<limb>, powInv: seq<limb>)
    requires |pow| == |powInv| == PROOT_2EXP + 1 && Cong(Power(root, P2(50)), -1, m)
    requires forall k :: 1 <= k <= PROOT_2EXP ==> Filled(m, root, pow[k], powInv[k], k)
    ensures DirectionOk(m, pow, powInv)
    ensures forall k :: 1 <= k <= PROOT_2EXP ==> Cong(pow[k], Power(root, P2(PROOT_2EXP - k)), m)
  {
    hide Cong, InvOk, Mul, P2, Power;
    forall k | 1 <= k <= PROOT_2EXP
      ensures RootOk(m, pow[k], powInv[k], k)
    {
      assert Filled(m, root, pow[k], powInv[k], k);
      PowerOrder(root, pow[k], PROOT_2EXP - k, m);
    }
    forall k | 1 <= k < PROOT_2EXP
      ensures Cong(pow[k], Mul(pow[k + 1], pow[k + 1]), m)
    {
      assert Filled(m, root, pow[k], powInv[k], k) && Filled(m, root, pow[k + 1], powInv[k + 1], k + 1);
      SquareOf(root, pow[k], pow[k + 1], PROOT_2EXP - k - 1, m);
    }
  }

  lemma SquareOf(w: int, c: int, d: int, i: nat, m: int)
    requires Cong(c, Power(w, P2(i + 1)), m) && Cong(d, Power(w, P2(i)), m)
    ensures Cong(c, Mul(d, d), m)
  {
    var p := Power(w, P2(i));
    CongMul(d, p, d, p, m);
    assert P2(i + 1) == P2(i) + P2(i);
    PowerAdd(w, P2(i), P2(i));
  }

  lemma CongSwap(a: int, b: int, m: int)
    requires Cong(a, b, m)
    ensures Cong(b, a, m)
  {}

  /** w^(2^i) to the power 2^(50-i) is -1. */
  lemma PowerOrder(w: int, c: int, i: nat, m: int)
    requires i <= 50 && Cong(c, Power(w, P2(i)), m) && Cong(Power(w, P2(50)), -1, m)
    ensures Cong(Power(c, P2(50 - i)), -1, m)
  {
    PowerCong(c, Power(w, P2(i)), P2(50 - i), m);
    PowerMul(w, P2(i), P2(50 - i));
    P2Add(i, 50 - i);
  }

  lemma SquareStep(w: int, c: int, next: int, i: nat, m: int)
    requires Cong(c, Power(w, P2(i)), m) && Cong(next, Mul(c, c), m)
    ensures Cong(next, Power(w, P2(i + 1)), m)
  {
    var p := Power(w, P2(i));
    CongMul(c, p, c, p, m);
    assert P2(i + 1) == P2(i) + P2(i);
    PowerAdd(w, P2(i), P2(i));
  }

  /** An inverse of a root has the same order. */
  lemma InverseOrder(w: int, v: int, m: int)
    requires Cong(Power(w, P2(50)), -1, m) && Cong(w * v, 1, m)
    ensures Cong(Power(v, P2(50)), -1, m)
  {
    var x, y := Power(w, P2(50)), Power(v, P2(50));
    PowerBase(w, v, P2(50));
    PowerCong(w * v, 1, P2(50), m);
    PowerOne(P2(50));
    CongMul(x, -1, y, y, m);
    CongMul(-1, -1, -1 * y, 1, m);
    assert -1 * (-1 * y) == y;
  }

  lemma InversePowers(w: int, v: int, x: int, y: int, e: nat, m: int)
    requires Cong(w * v, 1, m) && Cong(x, Power(w, e), m) && Cong(y, Power(v, e), m)
    ensures Cong(Mul(x, y), 1, m)
  {
    CongMul(x, Power(w, e), y, Power(v, e), m);
    PowerBase(w, v, e);
    PowerCong(w * v, 1, e, m);
    PowerOne(e);
  }

  lemma DirectionLength(m: int, pow: seq<limb>, powInv: seq<limb>)
    requires DirectionOk(m, pow, powInv)
    ensures |pow| == |powInv| == PROOT_2EXP + 1
  {}

  /** ntt_static_init for one modulus. */
  method InitField(j: nat) returns (f: Field)
    requires j < NB_MODS
    ensures FieldOk(f) && f.m == MODS[j]
  {
    hide Cong, InvOk, BarrettOk, P2, Power, DirectionOk, LengthsOk;
    RootsOk(j);
    InverseOrder(ROOTS[j], ROOTS_INV[j], MODS[j]);
    var m: limb := MODS[j];
    var mInv := InitMulModFast(m);
    var lenInv := InitLengths(m, mInv);
    var pow0, inv0 := InitDirection(m, mInv, ROOTS[j]);
    var pow1, inv1 := InitDirection(m, mInv, ROOTS_INV[j]);
    f := Field(m, mInv, [pow0, pow1], [inv0, inv1], lenInv);
    DirectionLength(m, pow0, inv0);
    DirectionLength(m, pow1, inv1);
    hide Mul;
    forall k | 1 <= k <= PROOT_2EXP
      ensures Cong(Mul(f.pow[0][k], f.pow[1][k]), 1, f.m)
    {
      InversePowers(ROOTS[j], ROOTS_INV[j], pow0[k], pow1[k], P2(PROOT_2EXP - k), m);
    }
  }
}
