/** The mixed radix representation of a coefficient from its residues (the Chinese remainder step of
    ntt_to_limb). */
module NttGarner {
  import opened Limbs
  import opened Congruence
  import opened NttRoots
  import opened NttField

  /** ntt_mods_cr: the inverse of modulus j modulo modulus k, for all j < k. */
  const MODS_CR: seq<int> := [0x8a9ed097b425eea, 0x18a44aaaaaaaaab3, 0x2493f57f57f57f5d, 0x126b8d0649a7f8d4,
    0x9d80ed7303b5ccc, 0x25b8bcf3cf3cf3d5, 0x2ce6ce63398ce638, 0xe31fad40a57eb59, 0x2a3529fd4a7f52f, 0x3a5493e93e93e94a]

  /** The place of the pair in the table. */
  function CrIndex(j: nat, k: nat): nat
    requires j < k < NB_MODS
  {
    if j == 0 then k - 1 else if j == 1 then k + 2 else if j == 2 then k + 4 else 9
  }

  lemma CrOk(j: nat, k: nat)
    requires j < k < NB_MODS
    ensures CrIndex(j, k) < 10 && 0 <= MODS_CR[CrIndex(j, k)] < MODS[k] && MODS[j] < MODS[k]
    ensures Cong(MODS_CR[CrIndex(j, k)] * MODS[j], 1, MODS[k])
  {
    InverseOf(MODS_CR[CrIndex(j, k)], MODS[j], MODS[k]);
  }

  /** The second modulus of entry l. */
  function CrColumn(l: nat): nat
    requires l < 10
  {
    [1, 2, 3, 4, 2, 3, 4, 3, 4, 4][l]
  }

  lemma CrColumnOk(j: nat, k: nat)
    requires j < k < NB_MODS
    ensures CrIndex(j, k) < 10 && CrColumn(CrIndex(j, k)) == k
  {}

  lemma CrNext(j: nat, k: nat)
    requires j < k < NB_MODS
    ensures if k + 1 < NB_MODS then CrIndex(j, k + 1) == CrIndex(j, k) + 1
            else if j + 2 < NB_MODS then CrIndex(j + 1, j + 2) == CrIndex(j, k) + 1 else CrIndex(j, k) == 9
  {}

  /** The precomputed quotients of the table (ntt_mods_cr_inv), up to entry l. */
  ghost predicate CrInvTo(crInv: seq<limb>, l: nat) {
    |crInv| == 10 && l <= 10 && forall i: nat | i < l ::
        CrColumn(i) < NB_MODS && InvOk(MODS_CR[i], crInv[i], MODS[CrColumn(i)])
  }

  ghost predicate CrInvOk(crInv: seq<limb>) {
    CrInvTo(crInv, 10)
  }

  method InitCr() returns (crInv: seq<limb>)
    ensures CrInvOk(crInv)
  {
    crInv := seq(10, i => 0);
    var l, j := 0, 0;
    while j < NB_MODS - 1
      invariant 0 <= j <= NB_MODS - 1 && l == (if j < NB_MODS - 1 then CrIndex(j, j + 1) else 10)
      invariant CrInvTo(crInv, l)
    {
      var k := j + 1;
      while k < NB_MODS
        invariant j + 1 <= k <= NB_MODS && CrInvTo(crInv, l)
        invariant l == if k < NB_MODS then CrIndex(j, k) else if j + 1 < NB_MODS - 1 then CrIndex(j + 1, j + 2) else 10
      {
        hide *;
        crInv := InitCrEntry(crInv, j, k, l);
        CrNext(j, k);
        l := l + 1;
        k := k + 1;
      }
      j := j + 1;
    }
  }

  method InitCrEntry(crInv: seq<limb>, j: nat, k: nat, l: nat) returns (r: seq<limb>)
    requires j < k < NB_MODS && l == CrIndex(j, k) && CrInvTo(crInv, l)
    ensures CrInvTo(r, l + 1)
  {
    hide InvOk, Cong;
    CrOk(j, k);
    RootsOk(k);
    CrColumnOk(j, k);
    hide MODS_CR, CrIndex, CrColumn;
    var inv := InitMulModFast2(MODS_CR[l], MODS[k]);
    r := crInv[l := inv];
  }

  /** d divided by the first j moduli in turn. */
  ghost function Quotient(d: nat, ms: seq<int>, j: nat): nat
    requires j <= |ms| && forall i :: 0 <= i < |ms| ==> ms[i] > 0
    decreases j
  {
    if j == 0 then d else PositiveQuotient(Quotient(d, ms, j - 1), ms[j - 1]); Quotient(d, ms, j - 1) / ms[j - 1]
  }

  lemma PositiveQuotient(a: nat, d: int)
    requires d > 0
    ensures a / d >= 0
  {}

  ghost function Product(ms: seq<int>): int {
    if ms == [] then 1 else ms[0] * Product(ms[1..])
  }

  /** The number with mixed radix digits y. */
  ghost function Mixed(y: seq<int>, ms: seq<int>): int
    requires |y| == |ms|
  {
    if y == [] then 0 else y[0] + ms[0] * Mixed(y[1..], ms[1..])
  }

  /** The digits of the repeated division rebuild the number. */
  lemma {:induction false} MixedIs(d: nat, y: seq<int>, ms: seq<int>)
    requires |y| == |ms| > 0 && (forall i :: 0 <= i < |ms| ==> ms[i] > 0) && d < Product(ms)
    requires forall k :: 0 <= k < |ms| ==> y[k] == Quotient(d, ms, k) % ms[k]
    ensures Mixed(y, ms) == d
    decreases |ms|
  {
    var m, rest := ms[0], ms[1..];
    PositiveQuotient(d, m);
    var q := d / m;
    assert Quotient(d, ms, 0) == d;
    assert d == q * m + y[0];
    if |ms| == 1 {
      assert Product(rest) == 1;
      assert Mixed(y[1..], rest) == 0;
      if q >= 1 {
        MulMono(1, q, m);
      }
      assert q * m == 0 by { assert q == 0; }
    } else {
      if q >= Product(rest) {
        MulMono(Product(rest), q, m);
      }
      forall k | 0 <= k < |rest|
        ensures y[1..][k] == Quotient(q, rest, k) % rest[k]
      {
        QuotientShift(d, ms, k);
      }
      MixedIs(q, y[1..], rest);
      assert m * q == q * m;
    }
  }

  lemma {:induction false} QuotientShift(d: nat, ms: seq<int>, k: nat)
    requires |ms| > 0 && k < |ms| && (forall i :: 0 <= i < |ms| ==> ms[i] > 0)
    ensures d / ms[0] >= 0 && Quotient(d, ms, k + 1) == Quotient(d / ms[0], ms[1..], k)
    decreases k
  {
    PositiveQuotient(d, ms[0]);
    if k > 0 {
      QuotientShift(d, ms, k - 1);
    } else {
      assert Quotient(d, ms, 0) == d;
    }
  }

  /** One elimination: from residues of x to residues of x / m. */
  lemma Eliminate(x: nat, yj: int, yk: int, m: int, mk: int, cr: int, r: int)
    requires m > 0 && mk > 0 && yj == x % m && Cong(yk, x, mk) && Cong(cr * m, 1, mk)
             && Cong(r, Mul(yk - yj + mk, cr), mk)
    ensures Cong(r, x / m, mk)
  {
    var q := x / m;
    assert x == q * m + yj;
    CongWitness(yk - yj + mk, yk - yj, 1, mk);
    CongAdd(yk, x, yj, yj, mk);
    CongMul(yk - yj + mk, q * m, cr, cr, mk);
    CongMul(q, q, cr * m, 1, mk);
    assert q * m * cr == q * (cr * m);
  }

  /** The moduli in use: the last nb of the table. */
  function Moduli(nb: nat): (ms: seq<int>)
    requires nb <= NB_MODS
    ensures |ms| == nb
  {
    MODS[NB_MODS - nb..]
  }

  lemma ModuliOk(nb: nat, k: nat)
    requires k < nb <= NB_MODS
    ensures ModulusOk(Moduli(nb)[k]) && Moduli(nb)[k] == MODS[NB_MODS - nb + k]
  {
    RootsOk(NB_MODS - nb + k);
  }

  ghost predicate Positive(ms: seq<int>) {
    forall i :: 0 <= i < |ms| ==> ms[i] > 0
  }

  /** Place i after j eliminations and the j-th one up to k: digits up to j, then residues of the next quotient,
      then of the current one. */
  ghost predicate PlaceOk(x: int, d: nat, ms: seq<int>, j: nat, k: nat, i: nat)
    requires Positive(ms) && j < |ms| && i < |ms|
  {
    && 0 <= x < ms[i]
    && (if i <= j then x == Quotient(d, ms, i) % ms[i]
        else if i < k then Cong(x, Quotient(d, ms, j + 1), ms[i])
        else Cong(x, Quotient(d, ms, j), ms[i]))
  }

  ghost predicate Eliminated(y: seq<limb>, d: nat, ms: seq<int>, j: nat, k: nat) {
    && Positive(ms) && j < |ms| <= |y|
    && forall i: nat | i < |ms| :: PlaceOk(y[i], d, ms, j, k, i)
  }

  lemma Reduced(y: int, x: int, m: int)
    requires Cong(y, x, m) && 0 <= y < m
    ensures y == x % m
  {
    DivModUnique(y, m, 0, y);
  }

  lemma MixedStart(y: seq<limb>, d: nat, ms: seq<int>)
    requires Positive(ms) && 0 < |ms| <= |y|
    requires forall k :: 0 <= k < |ms| ==> y[k] < ms[k] && Cong(y[k], d, ms[k])
    ensures Eliminated(y, d, ms, 0, 1)
  {
    hide Cong;
    assert Quotient(d, ms, 0) == d;
    Reduced(y[0], d, ms[0]);
  }

  /** The constants of one update. */
  lemma StepFacts(y: seq<limb>, d: nat, nb: nat, j: nat, k: nat, l: nat)
    requires j < k < nb <= NB_MODS && Eliminated(y, d, Moduli(nb), j, k)
    requires l == CrIndex(NB_MODS - nb + j, NB_MODS - nb + k)
    ensures l < 10 && 0 <= MODS_CR[l] < BASE && 0 <= y[k] - y[j] + MODS[NB_MODS - nb + k] < BASE
    ensures ModulusOk(MODS[NB_MODS - nb + k]) && Moduli(nb)[k] == MODS[NB_MODS - nb + k]
    ensures 0 <= MODS[NB_MODS - nb + k] < BASE && MODS_CR[l] < MODS[NB_MODS - nb + k]
    ensures Cong(MODS_CR[l] * Moduli(nb)[j], 1, Moduli(nb)[k])
  {
    hide Cong, Quotient, Moduli, MODS_CR, MODS, CrIndex;
    CrOk(NB_MODS - nb + j, NB_MODS - nb + k);
    ModuliOk(nb, j);
    ModuliOk(nb, k);
    assert PlaceOk(y[j], d, Moduli(nb), j, k, j) && PlaceOk(y[k], d, Moduli(nb), j, k, k);
  }

  /** One update of the code: y[k] becomes (y[k] - y[j]) / m_j modulo m_k. */
  method EliminateStep(y: array<limb>, nb: nat, crInv: seq<limb>, ghost d: nat, j: nat, k: nat, l: nat)
    requires j < k < nb <= NB_MODS && y.Length == NB_MODS && CrInvOk(crInv)
    requires l == CrIndex(NB_MODS - nb + j, NB_MODS - nb + k) && Eliminated(y[..], d, Moduli(nb), j, k)
    modifies y
    ensures Eliminated(y[..], d, Moduli(nb), j, k + 1)
  {
    hide Cong, InvOk, Quotient, Mul, Moduli, Eliminated, ModulusOk;
    CrColumnOk(NB_MODS - nb + j, NB_MODS - nb + k);
    hide CrIndex, CrColumn;
    ghost var s: seq<limb> := y[..];
    StepFacts(s, d, nb, j, k, l);
    var m: limb := MODS[NB_MODS - nb + k];
    var x: limb := y[k] - y[j] + m;
    var r := MulModFast2(x, MODS_CR[l], m, crInv[l]);
    y[k] := r;
    assert y[..] == s[k := r];
    EliminateOne(s, r, d, Moduli(nb), j, k, MODS_CR[l]);
  }

  lemma EliminateOne(s: seq<limb>, r: limb, d: nat, ms: seq<int>, j: nat, k: nat, cr: int)
    requires j < k < |ms| && Eliminated(s, d, ms, j, k) && r < ms[k]
    requires Cong(r, Mul((s[k] as int) - (s[j] as int) + ms[k], cr), ms[k]) && Cong(cr * ms[j], 1, ms[k])
    ensures Eliminated(s[k := r], d, ms, j, k + 1)
  {
    hide Cong, Mul;
    var q, k' := Quotient(d, ms, j), k + 1;
    assert PlaceOk(s[j], d, ms, j, k, j) && PlaceOk(s[k], d, ms, j, k, k);
    Eliminate(q, s[j], s[k], ms[j], ms[k], cr, r);
    assert Quotient(d, ms, j + 1) == q / ms[j];
    hide Quotient;
    var t := s[k := r];
    forall i: nat | i < |ms|
      ensures PlaceOk(t[i], d, ms, j, k', i)
    {
      assert PlaceOk(s[i], d, ms, j, k, i);
    }
  }

  lemma EliminatedNext(y: seq<limb>, d: nat, ms: seq<int>, j: nat)
    requires j + 1 < |ms| && Eliminated(y, d, ms, j, |ms|)
    ensures Eliminated(y, d, ms, j + 1, j + 2)
  {
    hide Cong, Quotient;
    var j', k' := j + 1, j + 2;
    forall i: nat | i < |ms|
      ensures PlaceOk(y[i], d, ms, j', k', i)
    {
      assert PlaceOk(y[i], d, ms, j, |ms|, i);
      if i == j' {
        Reduced(y[i], Quotient(d, ms, j'), ms[i]);
      }
    }
  }

  lemma MixedEnd(y: seq<limb>, d: nat, ms: seq<int>)
    requires |ms| >= 1 && Eliminated(y, d, ms, |ms| - 1, |ms|) && d < Product(ms)
    ensures Mixed(y[..|ms|], ms) == d && forall k :: 0 <= k < |ms| ==> y[k] < ms[k]
  {
    hide Cong, Quotient;
    var z := y[..|ms|];
    forall i | 0 <= i < |z|
      ensures z[i] < ms[i] && z[i] == Quotient(d, ms, i) % ms[i]
    {
      assert PlaceOk(y[i], d, ms, |ms| - 1, |ms|, i);
    }
    MixedIs(d, z, ms);
  }

  lemma ModuliPositive(nb: nat)
    requires nb <= NB_MODS
    ensures Positive(Moduli(nb))
  {
    hide Moduli;
    var ms := Moduli(nb);
    forall i | 0 <= i < |ms|
      ensures ms[i] > 0
    {
      ModuliOk(nb, i);
    }
  }

  /** y[k] holds the residues of d; in the end it holds the mixed radix digits of d. */
  method MixedRadix(y: array<limb>, nb: nat, crInv: seq<limb>, ghost d: nat)
    requires 2 <= nb <= NB_MODS && y.Length == NB_MODS && CrInvOk(crInv)
    requires forall k :: 0 <= k < nb ==> y[k] < Moduli(nb)[k] && Cong(y[k], d, Moduli(nb)[k])
    requires d < Product(Moduli(nb))
    modifies y
    ensures Mixed(y[..nb], Moduli(nb)) == d && forall k :: 0 <= k < nb ==> y[k] < Moduli(nb)[k]
  {
    hide Cong, InvOk, Moduli, Quotient, Mul, Eliminated, Positive, CrInvOk;
    ghost var ms := Moduli(nb);
    var first := NB_MODS - nb;
    ModuliPositive(nb);
    MixedStart(y[..], d, ms);
    var l, j := CrIndex(first, first + 1), 0;
    while j < nb - 1
      invariant 0 <= j <= nb - 1 && (j < nb - 1 ==> l == CrIndex(first + j, first + j + 1))
      invariant Eliminated(y[..], d, ms, j, j + 1)
    {
      var k := j + 1;
      while k < nb
        invariant j + 1 <= k <= nb && (k < nb ==> l == CrIndex(first + j, first + k))
        invariant k == nb && j + 1 < nb - 1 ==> l == CrIndex(first + j + 1, first + j + 2)
        invariant Eliminated(y[..], d, ms, j, k)
      {
        EliminateStep(y, nb, crInv, d, j, k, l);
        l := l + 1;
        k := k + 1;
      }
      EliminatedNext(y[..], d, ms, j);
      j := j + 1;
    }
    MixedEnd(y[..], d, ms);
    assert y[..][..nb] == y[..nb];
  }
}
