/** Square roots with remainder of limbs and limb arrays: a table for the leading bits, then
    Karatsuba's algorithm (libbf.c mp_sqrtrem1, mp_sqrtrem2, mp_sqrtrem_rec, mp_sqrtrem). */
module LimbSqrt {
  import opened Limbs
  import opened LimbArith
  import opened LimbDivLong
  import opened LimbDivFast
  import opened LimbMul

  /** The square roots of the 16-bit prefixes, rows of sixteen for the leading bytes 64 to 255. */
  const SQRT_TABLE: seq<seq<nat>> := [
    [128, 128, 129, 130, 131, 132, 133, 134, 135, 136, 137, 138, 139, 140, 141, 142],
    [143, 144, 144, 145, 146, 147, 148, 149, 150, 150, 151, 152, 153, 154, 155, 155],
    [156, 157, 158, 159, 160, 160, 161, 162, 163, 163, 164, 165, 166, 167, 167, 168],
    [169, 170, 170, 171, 172, 173, 173, 174, 175, 176, 176, 177, 178, 178, 179, 180],
    [181, 181, 182, 183, 183, 184, 185, 185, 186, 187, 187, 188, 189, 189, 190, 191],
    [192, 192, 193, 193, 194, 195, 195, 196, 197, 197, 198, 199, 199, 200, 201, 201],
    [202, 203, 203, 204, 204, 205, 206, 206, 207, 208, 208, 209, 209, 210, 211, 211],
    [212, 212, 213, 214, 214, 215, 215, 216, 217, 217, 218, 218, 219, 219, 220, 221],
    [221, 222, 222, 223, 224, 224, 225, 225, 226, 226, 227, 227, 228, 229, 229, 230],
    [230, 231, 231, 232, 232, 233, 234, 234, 235, 235, 236, 236, 237, 237, 238, 238],
    [239, 240, 240, 241, 241, 242, 242, 243, 243, 244, 244, 245, 245, 246, 246, 247],
    [247, 248, 248, 249, 249, 250, 250, 251, 251, 252, 252, 253, 253, 254, 254, 255]
  ]

  /** The entry t of row r and column c is a square root of every 16-bit number with leading byte
      64 + 16 r + c, or one less. */
  predicate EntryOk(r: nat, c: nat) {
    && r < |SQRT_TABLE| && c < |SQRT_TABLE[r]|
    && var t, x := SQRT_TABLE[r][c], (64 + 16 * r + c) * 256;
       128 <= t <= 255 && t * t <= x && x + 255 < (t + 2) * (t + 2)
  }

  lemma EntriesLow(r: nat, c: nat)
    requires r < 4 && c < 16
    ensures EntryOk(r, c)
  {}

  lemma EntriesMiddle(r: nat, c: nat)
    requires 4 <= r < 8 && c < 16
    ensures EntryOk(r, c)
  {}

  lemma EntriesHigh(r: nat, c: nat)
    requires 8 <= r < 12 && c < 16
    ensures EntryOk(r, c)
  {}

  /** s is the integer square root of a and r the remainder. */
  ghost predicate SqrtRem(a: int, s: int, r: int) {
    a == Mul(s, s) + r && 0 <= r <= 2 * s
  }

  lemma SqrtAtLeast(a: int, s: int, r: int, m: int)
    requires SqrtRem(a, s, r) && m >= 0 && Mul(m, m) <= a
    ensures m <= s
  {
    if s < m {
      MulMono(s + 1, m, s + 1);
      MulMono(s + 1, m, m);
    }
  }

  /** A square root with remainder is unique: s is the floor of the root. */
  lemma SqrtRemUnique(a: int, s: int, r: int, s': int, r': int)
    requires SqrtRem(a, s, r) && SqrtRem(a, s', r')
    ensures s == s' && r == r'
  {
    SqrtAtLeast(a, s, r, s');
    SqrtAtLeast(a, s', r', s);
  }

  lemma SqrtBelow(a: int, s: int, r: int, m: int)
    requires SqrtRem(a, s, r) && m >= 0 && a < Mul(m, m)
    ensures s < m
  {
    if m <= s {
      MulMono(m, s, m);
      MulMono(m, s, s);
    }
  }

  /** One Karatsuba step: from the root of the high half and one division by twice that root, the
      candidate root s1 * p + q is right or one too large. */
  lemma KaratsubaStep(ah: int, s1: int, r1: int, a1: int, a0: int, p: int, q: int, u: int)
    requires SqrtRem(ah, s1, r1) && 0 <= a1 < p && 0 <= a0 < p && p <= 2 * s1
    requires Mul(r1, p) + a1 == Mul(2 * s1, q) + u && 0 <= u < 2 * s1
    ensures 0 <= q <= p
    ensures var a, s, r := Mul(Mul(ah, p) + a1, p) + a0, Mul(s1, p) + q, Mul(u, p) + a0 - Mul(q, q);
            && a == Mul(s, s) + r
            && (if r >= 0 then SqrtRem(a, s, r) else SqrtRem(a, s - 1, r + 2 * s - 1))
  {
    QuotientRange(s1, r1, a1, p, q, u);
    var s, r := s1 * p + q, u * p + a0 - q * q;
    KaratsubaIdentity(ah, s1, r1, a1, a0, p, q, u, s);
    RemainderRange(s1, a0, p, q, u, s, r);
    SquareDown(s, r);
  }

  lemma SquareDown(s: int, r: int)
    ensures (s - 1) * (s - 1) + (r + 2 * s - 1) == s * s + r
  {}

  lemma RemainderRange(s1: int, a0: int, p: int, q: int, u: int, s: int, r: int)
    requires 0 <= a0 < p <= 2 * s1 && 0 <= q <= p && 0 <= u < 2 * s1
    requires s == s1 * p + q && r == u * p + a0 - q * q
    ensures r <= 2 * s && r + 2 * s - 1 >= 0
  {
    HighPart(s1, p, u);
    SquareGap(p, q);
    MulMono(p, 2 * s1, p);
    assert 2 * s1 * p == 2 * (s1 * p);
  }

  lemma HighPart(s1: int, p: int, u: int)
    requires 0 <= u < 2 * s1 && p > 0
    ensures 0 <= u * p <= 2 * (s1 * p) - p
  {
    MulMono(u, 2 * s1 - 1, p);
    MulMono(0, u, p);
    MulDist(2 * s1, 1, p);
    assert 2 * s1 * p == 2 * (s1 * p);
  }

  lemma SquareGap(p: int, q: int)
    requires 0 <= q <= p && 1 <= p
    ensures 0 <= q * q <= p * p + 2 * q - 1
  {
    MulMono(0, q, q);
    MulMono(q, p, q);
    MulMono(q, p, p);
    MulMono(1, p, p);
  }

  lemma QuotientRange(s1: int, r1: int, a1: int, p: int, q: int, u: int)
    requires 0 <= r1 <= 2 * s1 && 0 <= a1 < p <= 2 * s1
    requires r1 * p + a1 == 2 * s1 * q + u && 0 <= u < 2 * s1
    ensures 0 <= q <= p
  {
    MulMono(r1, 2 * s1, p);
    MulMono(0, r1, p);
    if q > p {
      MulMono(p + 1, q, 2 * s1);
      MulDist(p, 1, 2 * s1);
    }
    if q < 0 {
      MulMono(q, -1, 2 * s1);
    }
  }

  lemma KaratsubaIdentity(ah: int, s1: int, r1: int, a1: int, a0: int, p: int, q: int, u: int, s: int)
    requires ah == s1 * s1 + r1 && r1 * p + a1 == 2 * s1 * q + u && s == s1 * p + q
    ensures (ah * p + a1) * p + a0 == s * s + (u * p + a0 - q * q)
  {
    var w := s1 * p;
    assert ah * p == w * s1 + r1 * p by { MulDist(s1 * s1, r1, p); }
    assert (ah * p + a1) == w * s1 + 2 * s1 * q + u;
    assert (w * s1 + 2 * s1 * q + u) * p == w * w + 2 * w * q + u * p;
    assert s * s == w * w + 2 * w * q + q * q;
  }

  /** One widening step of mp_sqrtrem1 with p = 2^8 or 2^16: two more digits d1, d0 of the radicand. */
  method SqrtRefine(s1: limb, r1: limb, d1: limb, d0: limb, p: limb, ghost ah: int) returns (s: limb, r: limb)
    requires 2 <= p <= 0x10000 && d1 < p && d0 < p && p <= 2 * s1 && s1 < p
    requires SqrtRem(ah, s1, r1)
    ensures SqrtRem(Mul(Mul(ah, p) + d1, p) + d0, s, r)
  {
    hide Mul, SqrtRem;
    RefineRange(ah, s1, r1, p, d1);
    var num := Mul(r1, p) + d1;
    var q, u := DivMod(num, 2 * s1);
    KaratsubaStep(ah, s1, r1, d1, d0, p, q, u);
    RefineSizes(s1, p, q, u, d0);
    ghost var rs := Mul(u, p) + d0 - Mul(q, q);
    s := Mul(s1, p) + q;
    r := (Mul(u, p) + d0 - Mul(q, q)) % BASE;
    if rs < 0 {
      RemBounds(Mul(Mul(ah, p) + d1, p) + d0, s - 1, rs + 2 * s - 1);
    }
    if r >= HALF {
      s := s - 1;
      r := (r + 2 * s + 1) % BASE;
    }
  }

  method DivMod(n: int, d: int) returns (q: int, u: int)
    requires d > 0
    ensures n == Mul(d, q) + u && 0 <= u < d
  {
    q := n / d;
    u := n % d;
  }

  lemma RemBounds(a: int, s: int, r: int)
    requires SqrtRem(a, s, r)
    ensures 0 <= r <= 2 * s
  {}

  lemma RefineRange(ah: int, s1: int, r1: int, p: int, d1: int)
    requires SqrtRem(ah, s1, r1) && 0 <= s1 < p <= 0x10000 && 0 <= d1 < p
    ensures 0 <= r1 <= 2 * s1 && 0 <= Mul(r1, p) + d1 < 0x4_0000_0000
  {
    MulMono(r1, 0x20000, p);
    MulMono(0, r1, p);
  }

  lemma RefineSizes(s1: int, p: int, q: int, u: int, d0: int)
    requires 0 < s1 < p <= 0x10000 && 0 <= q <= p && 0 <= u < 2 * s1 && 0 <= d0 < p
    ensures 0 < Mul(s1, p) && Mul(s1, p) + q <= 0x1_0000_0000
    ensures -0x1_0000_0000 <= Mul(u, p) + d0 - Mul(q, q) <= 0x4_0000_0000
  {
    MulMono(1, s1, p);
    MulMono(s1, p - 1, p);
    MulMono(p, 0x10000, p);
    MulDist(p, 1, p);
    MulMono(0, u, p);
    MulMono(u, 0x20000, p);
    MulMono(q, p, q);
    MulMono(q, p, p);
    MulMono(0, q, q);
  }

  /** libbf.c mp_sqrtrem1: a table for the first 16 bits, then two widening steps. */
  method MpSqrtRem1(a: limb) returns (s: limb, r: limb)
    requires a >= 0x4000_0000_0000_0000
    ensures SqrtRem(a, s, r)
  {
    hide Mul, SqrtRem;
    var s1, r1 := SqrtTop(a / 0x1_0000_0000_0000);
    SqrtTopRange(a / 0x1_0000_0000_0000, s1, r1);
    s, r := SqrtRefine(s1, r1, (a / 0x100_0000_0000) % 0x100, (a / 0x1_0000_0000) % 0x100, 0x100,
                       a / 0x1_0000_0000_0000);
    Digits(a / 0x1_0000_0000, 0x100);
    SqrtMiddleRange(a / 0x1_0000_0000, s, r);
    s, r := SqrtRefine(s, r, (a / 0x1_0000) % 0x1_0000, a % 0x1_0000, 0x1_0000, a / 0x1_0000_0000);
    Digits(a, 0x1_0000);
  }

  /** The leading 16 bits: table lookup and at most one correction. */
  method SqrtTop(a: nat) returns (s: limb, r: limb)
    requires 0x4000 <= a < 0x1_0000
    ensures SqrtRem(a, s, r)
  {
    hide Mul, SqrtRem, EntryOk;
    var i := a / 256 - 64;
    TableEntry(a, i / 16, i % 16);
    s := SQRT_TABLE[i / 16][i % 16];
    r := a - Mul(s, s);
    if r > 2 * s {
      r := r - (2 * s + 1);
      s := s + 1;
    }
  }

  lemma TableEntry(a: nat, row: nat, col: nat)
    requires row < 12 && col < 16 && a / 256 == 64 + 16 * row + col
    ensures |SQRT_TABLE| == 12 && |SQRT_TABLE[row]| == 16
    ensures var s := SQRT_TABLE[row][col];
            && 0 < s < 256 && 0 <= a - Mul(s, s) < 0x1_0000
            && (if a - Mul(s, s) > 2 * s then SqrtRem(a, s + 1, a - Mul(s, s) - (2 * s + 1))
                else SqrtRem(a, s, a - Mul(s, s)))
  {
    hide Mul, SqrtRem, EntryOk;
    if row < 4 {
      EntriesLow(row, col);
    } else if row < 8 {
      EntriesMiddle(row, col);
    } else {
      EntriesHigh(row, col);
    }
    TableShape();
    EntryRoot(a, row, col);
  }

  lemma TableShape()
    ensures |SQRT_TABLE| == 12 && forall r :: 0 <= r < 12 ==> |SQRT_TABLE[r]| == 16
  {}

  lemma EntryRoot(a: nat, row: nat, col: nat)
    requires EntryOk(row, col) && a / 256 == 64 + 16 * row + col
    ensures var s := SQRT_TABLE[row][col];
            && 0 < s < 256 && 0 <= a - Mul(s, s) < 0x1_0000
            && (if a - Mul(s, s) > 2 * s then SqrtRem(a, s + 1, a - Mul(s, s) - (2 * s + 1))
                else SqrtRem(a, s, a - Mul(s, s)))
  {
    RootOfEntry(a, SQRT_TABLE[row][col]);
  }

  lemma RootOfEntry(a: nat, s: int)
    requires 128 <= s <= 255 && s * s <= a / 256 * 256 && a / 256 * 256 + 255 < (s + 2) * (s + 2)
    ensures 0 <= a - Mul(s, s) < 0x1_0000
    ensures
      if a - Mul(s, s) > 2 * s then SqrtRem(a, s + 1, a - Mul(s, s) - (2 * s + 1))
      else SqrtRem(a, s, a - Mul(s, s))
  {
    MulDist(s, 1, s);
    MulDist(s, 1, s + 1);
    MulDist(s, 2, s);
    MulDist(s, 2, s + 2);
  }

  lemma SqrtTopRange(a: int, s: int, r: int)
    requires SqrtRem(a, s, r) && 0x4000 <= a < 0x1_0000
    ensures 128 <= s < 256
  {
    SqrtAtLeast(a, s, r, 128);
    SqrtBelow(a, s, r, 256);
  }

  lemma SqrtMiddleRange(a: int, s: int, r: int)
    requires SqrtRem(a, s, r) && 0x4000_0000 <= a < 0x1_0000_0000
    ensures 0x8000 <= s < 0x1_0000
  {
    SqrtAtLeast(a, s, r, 0x8000);
    SqrtBelow(a, s, r, 0x1_0000);
  }

  /** Two digits of a in base p below the rest. */
  lemma Digits(a: nat, p: nat)
    requires p == 0x100 || p == 0x1_0000 || p == 0x1_0000_0000
    ensures a == Mul(Mul(a / (p * p), p) + (a / p) % p, p) + a % p
  {}

  const HALF_LIMB := 0x1_0000_0000
  const QUARTER := 0x4000_0000_0000_0000

  /** libbf.c mp_sqrtrem2: the root of two limbs; the candidate root wraps to 0 when it is BASE, and the
      correction brings it back. Returns the high limb of the remainder. */
  method MpSqrtRem2(s: array<limb>, so: nat, a: array<limb>, ao: nat) returns (rh: limb)
    requires so < s.Length && ao + 2 <= a.Length && s != a
    requires a[ao + 1] >= QUARTER
    modifies s, a
    ensures rh <= 1
    ensures SqrtRem(old(a[ao + 1]) * BASE + old(a[ao]), s[so], a[ao] + rh * BASE)
    ensures Untouched(s, so, so + 1) && Untouched(a, ao, ao + 1)
  {
    hide Mul, SqrtRem;
    var a0, a1 := a[ao], a[ao + 1];
    var s1, r1 := MpSqrtRem1(a1);
    HalfRootRange(a1, s1, r1);
    var num := r1 * HALF_LIMB + a0 / HALF_LIMB;
    var q, u := DivMod(num, 2 * s1);
    MulHalf(r1);
    KaratsubaStep(a1, s1, r1, a0 / HALF_LIMB, a0 % HALF_LIMB, HALF_LIMB, q, u);
    WideDigits(a1, a0, s1, u);
    ghost var rs := Mul(u, HALF_LIMB) + a0 % HALF_LIMB - Mul(q, q);
    ghost var ss := s1 * HALF_LIMB + q;
    SquareLimb(q);
    var root := (s1 * HALF_LIMB + q) % BASE;
    var r := (u * HALF_LIMB + a0 % HALF_LIMB - (if q / HALF_LIMB != 0 then BASE else Mul(q, q))) % DOUBLE_BASE;
    if rs < 0 {
      RemBounds(a1 * BASE + a0, ss - 1, rs + 2 * ss - 1);
      RootBelowBase(a1, a0, ss - 1, rs + 2 * ss - 1);
    } else {
      RemBounds(a1 * BASE + a0, ss, rs);
      RootBelowBase(a1, a0, ss, rs);
    }
    root, r := SettleRoot(root, r, ss, rs);
    s[so] := root;
    a[ao] := r % BASE;
    rh := r / BASE;
  }

  /** The sign test and single correction that end mp_sqrtrem2. */
  method SettleRoot(root0: limb, r0: int, ghost ss: int, ghost rs: int) returns (root: limb, r: int)
    requires root0 == ss % BASE && r0 == rs % DOUBLE_BASE
    requires 0 <= ss <= BASE && 0 - BASE <= rs < 4 * BASE
    requires rs >= 0 ==> ss < BASE
    requires rs < 0 ==> 0 <= rs + 2 * ss - 1 && 1 <= ss
    ensures root == (if rs < 0 then ss - 1 else ss)
    ensures r == (if rs < 0 then rs + 2 * ss - 1 else rs)
  {
    root, r := root0, r0;
    if r / BASE >= HALF {
      root := (root - 1) % BASE;
      r := (r + 2 * root + 1) % DOUBLE_BASE;
    }
  }

  lemma HalfRootRange(a: limb, s: int, r: int)
    requires SqrtRem(a, s, r) && a >= QUARTER
    ensures 0x8000_0000 <= s < HALF_LIMB && 0 <= r <= 2 * s
  {
    SqrtAtLeast(a, s, r, 0x8000_0000);
    SqrtBelow(a, s, r, HALF_LIMB);
  }

  lemma MulHalf(x: int)
    ensures Mul(x, HALF_LIMB) == x * HALF_LIMB
  {}

  lemma WideDigits(a1: int, a0: limb, s1: int, u: int)
    ensures Mul(Mul(a1, HALF_LIMB) + a0 / HALF_LIMB, HALF_LIMB) + a0 % HALF_LIMB == a1 * BASE + a0
    ensures Mul(s1, HALF_LIMB) == s1 * HALF_LIMB && Mul(u, HALF_LIMB) == u * HALF_LIMB
  {}

  lemma SquareLimb(q: int)
    requires 0 <= q <= HALF_LIMB
    ensures 0 <= Mul(q, q) <= BASE && (q / HALF_LIMB != 0 <==> q == HALF_LIMB) && (q == HALF_LIMB ==> Mul(q, q) == BASE)
  {
    MulMono(0, q, q);
    MulMono(q, HALF_LIMB, q);
    MulMono(q, HALF_LIMB, HALF_LIMB);
  }

  lemma RootBelowBase(a1: limb, a0: limb, s: int, r: int)
    requires SqrtRem(a1 * BASE + a0, s, r)
    ensures 0 <= s < BASE
  {
    SqrtBelow(a1 * BASE + a0, s, r, BASE);
  }

  /** Takes the root out of the remainder once when its high bit is set. */
  method ReduceHigh(s: array<limb>, so: nat, a: array<limb>, ao: nat, h: nat, qh0: limb) returns (ghost R: seq<limb>)
    requires 1 <= h && so + h <= s.Length && ao + h <= a.Length && s != a
    requires s[so + h - 1] >= HALF && qh0 <= 1
    requires Val(a[ao..ao + h]) + Mul(qh0, Pow(h)) <= 2 * Val(s[so..so + h])
    modifies a
    ensures R == a[ao..ao + h]
    ensures old(Val(a[ao..ao + h])) + Mul(qh0, Pow(h)) == Mul(qh0, Val(s[so..so + h])) + Val(R)
    ensures Untouched(a, ao, ao + h)
  {
    hide Mul, Val, Pow;
    ghost var s1, R0, c := Val(s[so..so + h]), a[ao..ao + h], 0;
    NormalizedHalf(s[so..so + h]);
    MulUnit(Pow(h));
    MulUnit(s1);
    if qh0 != 0 {
      c := MpSub(a, ao, a, ao, s, so, h, 0);
    }
    R := a[ao..ao + h];
    ValBound(R0);
    ValBound(R);
    RemainderLessRoot(Val(R0) + Mul(qh0, Pow(h)), s1, qh0, Val(R0), Val(R), c, Pow(h));
  }

  /** When the remainder has a high bit, one subtraction of the root reduces it to h limbs. */
  lemma RemainderLessRoot(r1: int, s1: int, qh0: int, r0: int, r: int, c: int, p: int)
    requires 0 <= qh0 <= 1 && 0 <= r < p && 0 <= r0 < p && 0 < s1 < p && 0 <= c <= 1
    requires r1 == r0 + Mul(qh0, p) && r1 <= 2 * s1
    requires r - Mul(c, p) == r0 - Mul(qh0, s1)
    requires qh0 == 0 ==> c == 0
    ensures r1 == Mul(qh0, s1) + r
  {}

  /** The call of mp_divnorm in mp_sqrtrem_rec: the low quotient limbs move to s, the top one is returned. */
  method RootQuotient(s: array<limb>, so: nat, a: array<limb>, ao: nat, l: nat, h: nat, tmp: array<limb>)
    returns (top: limb)
    requires 1 <= l <= h && so + l + h <= s.Length && ao + (l + h) <= a.Length && l + 1 <= tmp.Length
    requires s != a && s != tmp && a != tmp
    requires s[so + l + h - 1] >= HALF
    modifies s, a, tmp
    ensures top <= 1
    ensures old(Val(a[ao..ao + (l + h)])) ==
            Mul(Val(s[so..so + l]) + Mul(top, Pow(l)), Val(s[so + l..so + l + h])) + Val(a[ao..ao + h])
    ensures Val(a[ao..ao + h]) < Val(s[so + l..so + l + h])
    ensures Untouched(s, so, so + l) && Untouched(a, ao, ao + (l + h))
  {
    hide Mul, Val, Pow;
    ghost var S := s[so + l..so + l + h];
    var n := l + h;
    MpDivNorm(tmp, 0, a, ao, n, s, so + l, h);
    top := tmp[l];
    ghost var T := tmp[0..l];
    assert tmp[0..0 + (n - h) + 1] == T + [top];
    ValSnoc(T, top);
    Copy(s, so, tmp, 0, l);
    assert s[so..so + l] == T;
    assert s[so + l..so + l + h] == S;
  }

  /** The first half of the division step of mp_sqrtrem_rec: divide by the root s1 instead of twice the
      root. The remainder to divide is r1 = qh0 * BASE^h + a[2l..2l+h]; the quotient goes to s[0..l] with
      a high part qh of 0, 1 or 2. */
  method DivideByRoot(s: array<limb>, so: nat, a: array<limb>, ao: nat, l: nat, h: nat, tmp: array<limb>, qh0: limb)
    returns (qh: limb)
    requires 1 <= l <= h && so + l + h <= s.Length && ao + 2 * (l + h) <= a.Length && l + 1 <= tmp.Length
    requires s != a && s != tmp && a != tmp
    requires s[so + l + h - 1] >= HALF && qh0 <= 1
    requires Val(a[ao + 2 * l..ao + 2 * l + h]) + Mul(qh0, Pow(h)) <= 2 * Val(s[so + l..so + l + h])
    modifies s, a, tmp
    ensures qh <= 2
    ensures Mul(old(Val(a[ao + 2 * l..ao + 2 * l + h])) + Mul(qh0, Pow(h)), Pow(l)) + old(Val(a[ao + l..ao + 2 * l])) ==
            Mul(Val(s[so + l..so + l + h]), Val(s[so..so + l]) + Mul(qh, Pow(l))) + Val(a[ao + l..ao + l + h])
    ensures Val(a[ao + l..ao + l + h]) < Val(s[so + l..so + l + h])
    ensures Untouched(s, so, so + l) && Untouched(a, ao + l, ao + 2 * l + h)
  {
    hide Mul, Val, Pow;
    ghost var S, L, R0 := s[so + l..so + l + h], a[ao + l..ao + 2 * l], a[ao + 2 * l..ao + 2 * l + h];
    ghost var r1 := Val(R0) + Mul(qh0, Pow(h));
    ghost var R := ReduceHigh(s, so + l, a, ao + 2 * l, h, qh0);
    var n := l + h;
    assert a[ao + l..ao + l + n] == L + R;
    ValConcat(L, R);
    var top := RootQuotient(s, so, a, ao + l, l, h, tmp);
    assert s[so + l..so + l + h] == S;
    qh := qh0 + top;
    HalfQuotient(r1, Val(S), qh0, Val(R), Val(L), Pow(l), Val(s[so..so + l]), top, Val(a[ao + l..ao + l + h]));
  }

  lemma HalfQuotient(r1: int, s1: int, qh0: int, r: int, a1: int, p: int, t: int, top: int, u: int)
    requires r1 == Mul(qh0, s1) + r
    requires a1 + Mul(p, r) == Mul(t + Mul(top, p), s1) + u
    ensures Mul(r1, p) + a1 == Mul(s1, t + Mul(qh0 + top, p)) + u
  {
    MulDist(qh0 * s1, r, p);
    assert qh0 * s1 * p == s1 * (qh0 * p);
    MulDist(t, top * p, s1);
    MulDist(qh0, top, p);
    MulDist(t, (qh0 + top) * p, s1);
    MulDist(qh0 * p, top * p, s1);
    assert r * p == p * r;
  }

  ghost predicate Divided(r1: int, a1: int, s1: int, p: int, q: int, u: int) {
    Mul(r1, p) + a1 == Mul(2 * s1, q) + u && 0 <= u < 2 * s1
  }

  /** The division step of mp_sqrtrem_rec: on exit r1 * BASE^l + a1 = 2 * s1 * q + u, with
      q = qh * BASE^l + s[0..l] and u = rh * BASE^h + a[l..l+h]. */
  method HalfDivide(s: array<limb>, so: nat, a: array<limb>, ao: nat, l: nat, h: nat, tmp: array<limb>, qh0: limb)
    returns (qh: limb, rh: limb)
    requires 1 <= l <= h && so + l + h <= s.Length && ao + 2 * (l + h) <= a.Length && l + 1 <= tmp.Length
    requires s != a && s != tmp && a != tmp
    requires s[so + l + h - 1] >= HALF && qh0 <= 1
    requires Val(a[ao + 2 * l..ao + 2 * l + h]) + Mul(qh0, Pow(h)) <= 2 * Val(s[so + l..so + l + h])
    modifies s, a, tmp
    ensures rh <= 1 && qh <= 1
    ensures Divided(old(Val(a[ao + 2 * l..ao + 2 * l + h])) + Mul(qh0, Pow(h)), old(Val(a[ao + l..ao + 2 * l])),
                    Val(s[so + l..so + l + h]), Pow(l),
                    Val(s[so..so + l]) + Mul(qh, Pow(l)), Val(a[ao + l..ao + l + h]) + Mul(rh, Pow(h)))
    ensures Untouched(s, so, so + l) && Untouched(a, ao + l, ao + 2 * l + h)
  {
    hide Mul, Val, Pow, Divided;
    ghost var S := s[so + l..so + l + h];
    ghost var r1, a1 := Val(a[ao + 2 * l..ao + 2 * l + h]) + Mul(qh0, Pow(h)), Val(a[ao + l..ao + 2 * l]);
    var q := DivideByRoot(s, so, a, ao, l, h, tmp, qh0);
    assert s[so + l..so + l + h] == S;
    ghost var t, u := Val(s[so..so + l]), Val(a[ao + l..ao + l + h]);
    var ql;
    qh, ql := HalveQuotient(s, so, l, q);
    assert s[so + l..so + l + h] == S;
    HalfDivision(r1, Val(S), a1, Pow(l), t + Mul(q, Pow(l)), u, ql, Val(s[so..so + l]) + Mul(qh, Pow(l)));
    rh := 0;
    MulUnit(Pow(h));
    if ql != 0 {
      rh := MpAdd(a, ao + l, a, ao + l, s, so + l, h, 0);
    }
  }

  /** The division by s1 instead of 2 * s1 leaves a quotient to be halved. */
  method HalveQuotient(s: array<limb>, so: nat, l: nat, q: limb) returns (qh: limb, ql: limb)
    requires 1 <= l && so + l <= s.Length && q <= 2
    modifies s
    ensures qh == q / 2 && ql <= 1
    ensures old(Val(s[so..so + l])) + Mul(q, Pow(l)) == 2 * (Val(s[so..so + l]) + Mul(qh, Pow(l))) + ql
    ensures Untouched(s, so, so + l)
  {
    hide Mul, Val, Pow;
    ql := MpShr(s, so, s, so, l, 1, q % 2);
    ShiftedQuotient(old(Val(s[so..so + l])), q, ql, Val(s[so..so + l]), Pow(l));
    qh := q / 2;
  }

  lemma ShiftedQuotient(t: int, qh: int, ql: int, v: int, p: int)
    requires Mul(v, P2(1)) + ql == t + Mul((qh % 2) % P2(1), p) && 0 <= ql < P2(1)
    requires 0 <= qh <= 2
    ensures t + Mul(qh, p) == 2 * (v + Mul(qh / 2, p)) + ql && ql <= 1
  {
    assert P2(1) == 2;
  }

  lemma HalfDivision(r1: int, s1: int, a1: int, p: int, q: int, u: int, ql: int, q2: int)
    requires Mul(r1, p) + a1 == Mul(s1, q) + u && 0 <= u < s1
    requires q == 2 * q2 + ql && 0 <= ql <= 1
    ensures Divided(r1, a1, s1, p, q2, u + (if ql != 0 then s1 else 0))
  {
    MulDist(2 * q2, ql, s1);
    assert s1 * (2 * q2) == 2 * s1 * q2;
  }

  /** Subtracts q^2 from the low n limbs of a and their high part rh, where q = qh * BASE^l + s[0..l].
      When qh is set, q is exactly BASE^l and the multiplication is skipped. The new high part is signed. */
  method SubtractSquare(s: array<limb>, so: nat, a: array<limb>, ao: nat, n: nat, l: nat, qh: limb, rh: limb)
    returns (rh': limb, ghost high: int)
    requires 1 <= l && l == n / 2 && so + l <= s.Length && ao + 2 * n <= a.Length && s != a
    requires qh <= 1 && rh <= 1
    requires Val(s[so..so + l]) + Mul(qh, Pow(l)) <= Pow(l)
    modifies a
    ensures rh' == high % BASE && -1 <= high <= 1
    ensures Val(a[ao..ao + n]) + Mul(high, Pow(n)) == old(Val(a[ao..ao + n])) + Mul(rh, Pow(n))
              - Mul(Val(s[so..so + l]) + Mul(qh, Pow(l)), Val(s[so..so + l]) + Mul(qh, Pow(l)))
    ensures Untouched(a, ao, ao + 2 * n)
  {
    hide Mul, Val, Pow;
    ghost var L, H, q := a[ao..ao + 2 * l], a[ao + 2 * l..ao + n], Val(s[so..so + l]);
    assert a[ao..ao + n] == L + H;
    ValConcat(L, H);
    var c := SquareLow(s, so, a, ao, n, l, qh);
    ghost var l' := Val(a[ao..ao + 2 * l]);
    assert a[ao + 2 * l..ao + n] == H;
    ghost var h';
    var k;
    k, h' := BorrowHigh(a, ao, n, l, c);
    PowAdd(2 * l, n - 2 * l);
    high := rh - k;
    rh' := (rh - k) % BASE;
    SplitDifference(Val(L), Val(H), l', h', c, k, rh,
                    Mul(q + Mul(qh, Pow(l)), q + Mul(qh, Pow(l))), Pow(2 * l), Pow(n - 2 * l), Pow(n));
  }

  /** The square taken from the low 2 * l limbs. */
  method SquareLow(s: array<limb>, so: nat, a: array<limb>, ao: nat, n: nat, l: nat, qh: limb) returns (c: limb)
    requires 1 <= l && l == n / 2 && so + l <= s.Length && ao + 2 * n <= a.Length && s != a && qh <= 1
    requires Val(s[so..so + l]) + Mul(qh, Pow(l)) <= Pow(l)
    modifies a
    ensures c <= 1
    ensures Val(a[ao..ao + 2 * l]) - Mul(c, Pow(2 * l))
         == old(Val(a[ao..ao + 2 * l])) - Mul(Val(s[so..so + l]) + Mul(qh, Pow(l)),
                                              Val(s[so..so + l]) + Mul(qh, Pow(l)))
    ensures a[ao + 2 * l..ao + n] == old(a[ao + 2 * l..ao + n]) && Untouched(a, ao, ao + 2 * n)
  {
    hide Mul, Val, Pow;
    ghost var L, q := a[ao..ao + 2 * l], Val(s[so..so + l]);
    MulUnit(Pow(l));
    MulUnit(Pow(2 * l));
    PowAdd(l, l);
    c := qh;
    if qh == 0 {
      MpMul(a, ao + n, s, so, l, s, so, l);
      assert a[ao..ao + 2 * l] == L && a[ao + n..ao + n + l + l] == a[ao + n..ao + n + 2 * l];
      c := MpSub(a, ao, a, ao, a, ao + n, 2 * l, 0);
    } else {
      WholeRoot(q, Pow(l));
    }
  }

  lemma WholeRoot(q: int, p: int)
    requires 0 <= q && q + Mul(1, p) <= p
    ensures q == 0 && Mul(1, p) == p
  {}

  /** The borrow taken from the limb above, if there is one. */
  method BorrowHigh(a: array<limb>, ao: nat, n: nat, l: nat, c: limb) returns (k: limb, ghost h': int)
    requires 1 <= l && l == n / 2 && ao + 2 * n <= a.Length && c <= 1
    modifies a
    ensures k <= 1 && h' - Mul(k, Pow(n - 2 * l)) == old(Val(a[ao + 2 * l..ao + n])) - c
    ensures Val(a[ao..ao + n]) == old(Val(a[ao..ao + 2 * l])) + Mul(Pow(2 * l), h')
    ensures Untouched(a, ao, ao + 2 * n)
  {
    hide Mul, Val, Pow;
    ghost var L, H := a[ao..ao + 2 * l], a[ao + 2 * l..ao + n];
    assert a[ao + 2 * l..ao + 2 * l + (n - 2 * l)] == H;
    k := MpSubUi(a, ao + 2 * l, c, n - 2 * l);
    ghost var H' := a[ao + 2 * l..ao + 2 * l + (n - 2 * l)];
    if n == 2 * l {
      EmptyHigh(Val(H'), Val(H), k, c, H', H);
    }
    h' := Val(H');
    assert a[ao..ao + 2 * l] == L;
    assert a[ao..ao + n] == a[ao..ao + 2 * l] + H';
    ValConcat(L, H');
  }

  lemma EmptyHigh(h': int, h: int, k: int, c: int, H': seq<limb>, H: seq<limb>)
    requires H == [] && H' == [] && h' == Val(H') && h == Val(H) && h' - Mul(k, Pow(0)) == h - c
    ensures k == c
  {
    assert Pow(0) == 1;
  }

  lemma SplitDifference(l: int, h: int, l': int, h': int, c: int, k: int, rh: int, qq: int, p: int, pd: int, pn: int)
    requires l' - Mul(c, p) == l - qq && h' - Mul(k, pd) == h - c && pn == Mul(p, pd)
    ensures l' + Mul(p, h') + Mul(rh - k, pn) == l + Mul(p, h) + Mul(rh, pn) - qq
  {
    MulDist(rh, k, pn);
    MulDist(h', k * pd, p);
    MulDist(h, c, p);
    assert p * (k * pd) == k * (p * pd);
    assert p * c == c * p;
  }

  /** The single correction of mp_sqrtrem_rec: when the remainder is negative, lower the root and add
      twice the new root plus one. The candidate root ss is held modulo BASE^n. */
  method CorrectRoot(s: array<limb>, so: nat, a: array<limb>, ao: nat, n: nat, rh0: limb, ghost high: int,
                     ghost av: nat, ghost ss: int, ghost k: int)
    returns (rh: limb)
    requires n >= 1 && so + n <= s.Length && ao + n <= a.Length && s != a
    requires rh0 == high % BASE && -1 <= high <= 1 && 0 <= k <= 1 && av < Pow(2 * n)
    requires Val(s[so..so + n]) + Mul(k, Pow(n)) == ss
    requires Settles(av, ss, Val(a[ao..ao + n]) + Mul(high, Pow(n)))
    modifies s, a
    ensures rh <= 1
    ensures SqrtRem(av, Val(s[so..so + n]), Val(a[ao..ao + n]) + Mul(rh, Pow(n)))
    ensures Untouched(s, so, so + n) && Untouched(a, ao, ao + n)
  {
    hide Mul, Val, Pow, SqrtRem, Settles;
    rh := rh0;
    PowAdd(n, n);
    ValBound(a[ao..ao + n]);
    ValBound(s[so..so + n]);
    if rh >= HALF {
      ghost var s0, v0 := Val(s[so..so + n]), Val(a[ao..ao + n]);
      NegativeCase(av, ss, v0, high, Pow(n), Pow(2 * n));
      var b := MpSubUi(s, so, 1, n);
      ValBound(s[so..so + n]);
      WrappedRoot(s0, Val(s[so..so + n]), b, k, ss, Pow(n));
      var c1 := MpAddMul1(a, ao, s, so, n, 2);
      ghost var v1 := Val(a[ao..ao + n]);
      rh := (rh + c1) % BASE;
      var c2 := MpAddUi(a, ao, 1, n);
      rh := (rh + c2) % BASE;
      ValBound(a[ao..ao + n]);
      HighAfter(av, ss - 1, high, c1, c2, v0, v1, Val(a[ao..ao + n]), Pow(n));
    } else {
      PositiveCase(av, ss, Val(s[so..so + n]), k, Val(a[ao..ao + n]), high, Pow(n), Pow(2 * n));
    }
  }

  /** x is the remainder for ss, or negative by no more than one correction. */
  ghost predicate Settles(a: int, ss: int, x: int) {
    if x >= 0 then SqrtRem(a, ss, x) else SqrtRem(a, ss - 1, x + 2 * ss - 1)
  }

  lemma PositiveCase(av: int, ss: int, s: int, k: int, v: int, high: int, p: int, p2: int)
    requires 0 <= v < p && 0 <= high && Settles(av, ss, v + Mul(high, p)) && p2 == Mul(p, p) && 0 <= av < p2
    requires s + Mul(k, p) == ss && 0 <= k && 0 <= s
    ensures SqrtRem(av, s, v + Mul(high, p))
  {
    MulMono(0, high, p);
    SqrtBelow(av, ss, v + Mul(high, p), p);
    if k >= 1 {
      MulMono(1, k, p);
    }
  }

  lemma NegativeCase(av: int, ss: int, v: int, high: int, p: int, p2: int)
    requires 0 <= v < p && high <= -1 && Settles(av, ss, v + Mul(high, p)) && p2 == Mul(p, p) && 0 <= av < p2
    ensures SqrtRem(av, ss - 1, v + Mul(high, p) + 2 * ss - 1) && 0 <= ss - 1 < p
  {
    MulMono(high, -1, p);
    SqrtBelow(av, ss - 1, v + Mul(high, p) + 2 * ss - 1, p);
  }

  lemma WrappedRoot(s0: int, s: int, b: int, k: int, ss: int, p: int)
    requires s - Mul(b, p) == s0 - 1 && s0 + Mul(k, p) == ss
    requires 0 <= s < p && 0 <= ss - 1 < p
    ensures s == ss - 1
  {
    var t := k - b;
    MulDist(k, b, p);
    assert s + t * p == ss - 1;
    if t >= 1 {
      MulMono(1, t, p);
    } else if t <= -1 {
      MulMono(t, -1, p);
    } else {
      assert t * p == 0;
    }
  }

  lemma HighAfter(av: int, sd: int, high: int, c1: int, c2: int, v0: int, v1: int, v: int, p: int)
    requires SqrtRem(av, sd, v0 + Mul(high, p) + 2 * sd + 1) && 0 <= sd < p && 0 <= v < p
    requires v1 + Mul(c1, p) == v0 + Mul(2, sd) && v + Mul(c2, p) == v1 + 1
    ensures v0 + Mul(high, p) + 2 * sd + 1 == v + Mul(high + c1 + c2, p)
    ensures 0 <= high + c1 + c2 <= 1
  {
    var t := high + c1 + c2;
    MulDist(high, c1, p);
    MulDist(high + c1, c2, p);
    assert v0 + high * p + 2 * sd + 1 == v + t * p;
    if t <= -1 {
      MulMono(t, -1, p);
    }
    if t >= 2 {
      MulMono(2, t, p);
    }
  }

  /** libbf.c mp_sqrtrem_rec: the root of the 2n limbs of a goes to s[0..n], the remainder to a[0..n] and
      the returned high limb. */
  method MpSqrtRemRec(s: array<limb>, so: nat, a: array<limb>, ao: nat, n: nat, tmp: array<limb>) returns (rh: limb)
    requires n >= 1 && so + n <= s.Length && ao + 2 * n <= a.Length && n / 2 + 1 <= tmp.Length
    requires s != a && s != tmp && a != tmp
    requires a[ao + 2 * n - 1] >= QUARTER
    modifies s, a, tmp
    ensures rh <= 1
    ensures SqrtRem(old(Val(a[ao..ao + 2 * n])), Val(s[so..so + n]), Val(a[ao..ao + n]) + Mul(rh, Pow(n)))
    ensures Untouched(s, so, so + n) && Untouched(a, ao, ao + 2 * n)
    decreases n, 1
  {
    hide Mul, Val, Pow, SqrtRem;
    ghost var A := a[ao..ao + 2 * n];
    if n == 1 {
      rh := MpSqrtRem2(s, so, a, ao);
      OneLimb(A, s[so..so + 1], a[ao..ao + 1], rh);
    } else {
      var l := n / 2;
      var h := n - l;
      RadicandSplit(A, a[ao + 2 * l..ao + 2 * l + 2 * h], a[ao + l..ao + 2 * l], a[ao..ao + l]);
      rh := SqrtHalves(s, so, a, ao, l, h, tmp);
    }
  }

  /** The recursive case: the high half, then the rest. */
  method SqrtHalves(s: array<limb>, so: nat, a: array<limb>, ao: nat, l: nat, h: nat, tmp: array<limb>)
    returns (rh: limb)
    requires 1 <= l && l == (l + h) / 2 && l <= h && so + l + h <= s.Length && ao + 2 * (l + h) <= a.Length
    requires l + 1 <= tmp.Length && s != a && s != tmp && a != tmp
    requires a[ao + 2 * (l + h) - 1] >= QUARTER
    modifies s, a, tmp
    ensures rh <= 1
    ensures SqrtRem(old(Radicand(a[ao + 2 * l..ao + 2 * l + 2 * h], a[ao + l..ao + 2 * l], a[ao..ao + l])),
                    Val(s[so..so + (l + h)]), Val(a[ao..ao + (l + h)]) + Mul(rh, Pow(l + h)))
    ensures Untouched(s, so, so + (l + h)) && Untouched(a, ao, ao + 2 * (l + h))
    decreases l + h, 0
  {
    hide Mul, Val, Pow, SqrtRem, Radicand;
    ghost var A0, A1, AH := a[ao..ao + l], a[ao + l..ao + 2 * l], a[ao + 2 * l..ao + 2 * l + 2 * h];
    var qh0 := MpSqrtRemRec(s, so + l, a, ao + 2 * l, h, tmp);
    RootNormalized(AH, s[so + l..so + l + h], Val(a[ao + 2 * l..ao + 2 * l + h]) + Mul(qh0, Pow(h)));
    assert a[ao..ao + l] == A0 && a[ao + l..ao + 2 * l] == A1;
    rh := LowerHalf(s, so, a, ao, l, h, tmp, qh0, AH, A1, A0);
  }

  lemma RadicandSplit(A: seq<limb>, AH: seq<limb>, A1: seq<limb>, A0: seq<limb>)
    requires |A0| == |A1| && A == A0 + A1 + AH
    ensures Val(A) == Radicand(AH, A1, A0)
  {
    hide Mul, Val, Pow, Radicand;
    assert A == A0 + (A1 + AH);
    ValConcat(A0, A1 + AH);
    ValConcat(A1, AH);
    RadicandIs(AH, A1, A0, Val(A), Val(A1 + AH));
  }

  /** The rest of mp_sqrtrem_rec once the high half has been rooted. */
  method LowerHalf(s: array<limb>, so: nat, a: array<limb>, ao: nat, l: nat, h: nat, tmp: array<limb>, qh0: limb,
                   ghost AH: seq<limb>, ghost A1: seq<limb>, ghost A0: seq<limb>)
    returns (rh: limb)
    requires 1 <= l <= h && l == (l + h) / 2
    requires so + l + h <= s.Length && ao + 2 * (l + h) <= a.Length && l + 1 <= tmp.Length
    requires s != a && s != tmp && a != tmp
    requires s[so + l + h - 1] >= HALF && qh0 <= 1
    requires |AH| == 2 * h && A0 == a[ao..ao + l] && A1 == a[ao + l..ao + 2 * l]
    requires SqrtRem(Val(AH), Val(s[so + l..so + l + h]), Val(a[ao + 2 * l..ao + 2 * l + h]) + Mul(qh0, Pow(h)))
    modifies s, a, tmp
    ensures rh <= 1
    ensures SqrtRem(Radicand(AH, A1, A0), Val(s[so..so + (l + h)]), Val(a[ao..ao + (l + h)]) + Mul(rh, Pow(l + h)))
    ensures Untouched(s, so, so + (l + h)) && Untouched(a, ao, ao + 2 * (l + h))
  {
    hide Mul, Val, Pow, SqrtRem, Divided, Radicand;
    ghost var S, r1 := s[so + l..so + l + h], Val(a[ao + 2 * l..ao + 2 * l + h]) + Mul(qh0, Pow(h));
    RemBounds(Val(AH), Val(S), r1);
    NormalizedHalf(S);
    PowMonotone(l, h);
    var qh;
    qh, rh := HalfDivide(s, so, a, ao, l, h, tmp, qh0);
    assert s[so + l..so + l + h] == S && a[ao..ao + l] == A0;
    rh := FinishRoot(s, so, a, ao, l + h, l, qh, rh, AH, A1, A0, Val(S), r1);
  }

  ghost function Radicand(AH: seq<limb>, A1: seq<limb>, A0: seq<limb>): int {
    Mul(Mul(Val(AH), Pow(|A0|)) + Val(A1), Pow(|A0|)) + Val(A0)
  }

  lemma RadicandIs(AH: seq<limb>, A1: seq<limb>, A0: seq<limb>, v: int, w: int)
    requires |A0| == |A1| && w == Val(A1) + Mul(Pow(|A1|), Val(AH)) && v == Val(A0) + Mul(Pow(|A0|), w)
    ensures v == Radicand(AH, A1, A0)
  {
    hide Val, Pow, Mul;
    MulSwap(Pow(|A1|), Val(AH));
    MulSwap(Pow(|A0|), w);
  }

  /** From the division step to the final root: assemble s, subtract q^2, correct. */
  method FinishRoot(s: array<limb>, so: nat, a: array<limb>, ao: nat, n: nat, l: nat, qh: limb, rh0: limb,
                    ghost AH: seq<limb>, ghost A1: seq<limb>, ghost A0: seq<limb>, ghost s1: int, ghost r1: int)
    returns (rh: limb)
    requires n >= 2 && l == n / 2 && so + n <= s.Length && ao + 2 * n <= a.Length && s != a
    requires qh <= 1 && rh0 <= 1
    requires |A0| == |A1| == l && |AH| == 2 * (n - l) && A0 == a[ao..ao + l]
    requires s1 == Val(s[so + l..so + l + (n - l)]) && SqrtRem(Val(AH), s1, r1) && Pow(l) <= 2 * s1
    requires Divided(r1, Val(A1), s1, Pow(l), Val(s[so..so + l]) + Mul(qh, Pow(l)),
                     Val(a[ao + l..ao + l + (n - l)]) + Mul(rh0, Pow(n - l)))
    modifies s, a
    ensures rh <= 1
    ensures SqrtRem(Radicand(AH, A1, A0), Val(s[so..so + n]), Val(a[ao..ao + n]) + Mul(rh, Pow(n)))
    ensures Untouched(s, so, so + n) && Untouched(a, ao, ao + 2 * n)
  {
    hide Mul, Val, Pow, SqrtRem, Divided, Settles, Radicand;
    ghost var Q, U := s[so..so + l], a[ao + l..ao + l + (n - l)];
    ghost var q, u := Val(Q) + Mul(qh, Pow(l)), Val(U) + Mul(rh0, Pow(n - l));
    ghost var ss := Mul(s1, Pow(l)) + q;
    StepFacts(AH, A1, A0, s1, r1, q, u);
    assert a[ao..ao + n] == A0 + U;
    ValConcat(A0, U);
    PowAdd(l, n - l);
    CombineHigh(Val(A0), Val(U), rh0, Pow(l), Pow(n - l), Pow(n));
    var k := MpAddUi(s, so + l, qh, n - l);
    ghost var S' := s[so + l..so + l + (n - l)];
    assert s[so..so + l] == Q;
    assert s[so..so + n] == Q + S';
    ValConcat(Q, S');
    RootSum(Val(Q), Val(S'), qh, k, s1, Pow(l), Pow(n - l), Pow(n));
    ghost var high;
    var rh1;
    rh1, high := SubtractSquare(s, so, a, ao, n, l, qh, rh0);
    RadicandBound(AH, A1, A0, n);
    rh := CorrectRoot(s, so, a, ao, n, rh1, high, Radicand(AH, A1, A0), ss, k);
  }

  lemma StepFacts(AH: seq<limb>, A1: seq<limb>, A0: seq<limb>, s1: int, r1: int, q: int, u: int)
    requires |A0| == |A1| && SqrtRem(Val(AH), s1, r1) && Pow(|A0|) <= 2 * s1
    requires Divided(r1, Val(A1), s1, Pow(|A0|), q, u)
    ensures q <= Pow(|A0|)
    ensures Settles(Radicand(AH, A1, A0), Mul(s1, Pow(|A0|)) + q, Mul(u, Pow(|A0|)) + Val(A0) - Mul(q, q))
  {
    hide Mul, Val, Pow, SqrtRem;
    ValBound(A0);
    ValBound(A1);
    KaratsubaStep(Val(AH), s1, r1, Val(A1), Val(A0), Pow(|A0|), q, u);
  }

  lemma CombineHigh(a0: int, u: int, rh: int, p: int, ph: int, pn: int)
    requires pn == Mul(p, ph)
    ensures a0 + Mul(p, u) + Mul(rh, pn) == Mul(u + Mul(rh, ph), p) + a0
  {
    MulDist(u, rh * ph, p);
    assert rh * ph * p == rh * (p * ph);
  }

  lemma RootSum(q: int, s': int, qh: int, k: int, s1: int, p: int, ph: int, pn: int)
    requires s' + Mul(k, ph) == s1 + qh && pn == Mul(p, ph)
    ensures q + Mul(p, s') + Mul(k, pn) == Mul(s1, p) + (q + Mul(qh, p))
  {
    MulDist(s', k * ph, p);
    MulDist(s1, qh, p);
    assert p * (k * ph) == k * (p * ph);
    assert (s' + k * ph) * p == (s1 + qh) * p;
  }

  lemma RadicandBound(AH: seq<limb>, A1: seq<limb>, A0: seq<limb>, n: nat)
    requires |A0| == |A1| && |AH| + 2 * |A0| == 2 * n
    ensures 0 <= Radicand(AH, A1, A0) < Pow(2 * n)
  {
    hide Mul, Val, Pow, Radicand;
    ValConcat(A0, A1 + AH);
    ValConcat(A1, AH);
    ValBound(A0 + (A1 + AH));
    RadicandIs(AH, A1, A0, Val(A0 + (A1 + AH)), Val(A1 + AH));
  }

  lemma OneLimb(A: seq<limb>, S: seq<limb>, R: seq<limb>, rh: limb)
    requires |A| == 2 && |S| == 1 && |R| == 1
    requires SqrtRem(A[1] * BASE + A[0], S[0], R[0] + rh * BASE)
    ensures SqrtRem(Val(A), Val(S), Val(R) + Mul(rh, Pow(1)))
  {
    ValOne(S);
    ValOne(R);
    assert A == [A[0]] + [A[1]];
    ValCons(A[0], [A[1]]);
    ValOne([A[1]]);
    assert Pow(1) == Pow(0) * BASE;
  }

  /** The root of a radicand with top limb at least BASE/4 is normalized. */
  lemma RootNormalized(A: seq<limb>, S: seq<limb>, r: int)
    requires |S| >= 1 && |A| == 2 * |S| && A[|A| - 1] >= QUARTER
    requires SqrtRem(Val(A), Val(S), r)
    ensures S[|S| - 1] >= HALF && 0 <= r <= 2 * Val(S)
    ensures Pow(|S|) <= 2 * Val(S)
  {
    hide Mul, Val, Pow, SqrtRem;
    var m := |S| - 1;
    ValTop(A);
    ValTop(S);
    PowAdd(m, m);
    PowNext(2 * m);
    RootNormalizedArith(Val(A), Val(S), r, A[2 * m + 1], S[m], Pow(m), Pow(2 * m), Pow(2 * m + 1));
    NormalizedHalf(S);
    RemBounds(Val(A), Val(S), r);
  }

  lemma RootNormalizedArith(a: int, s: int, r: int, top: int, st: int, p: int, p2: int, p3: int)
    requires SqrtRem(a, s, r) && top >= QUARTER && Mul(top, p3) <= a && p2 == Mul(p, p) && p3 == p2 * BASE && p > 0
    requires s < Mul(st, p) + p
    ensures st >= HALF
  {
    MulMono(QUARTER, top, p3);
    assert HALF * p * (HALF * p) == HALF * HALF * (p * p);
    MulMono(0, p, p);
    SqrtAtLeast(a, s, r, HALF * p);
    if st < HALF {
      MulMono(st, HALF - 1, p);
    }
  }

  /** libbf.c mp_sqrtrem: allocates the scratch buffer and stores the high limb of the remainder above it. */
  method MpSqrtRem(s: array<limb>, so: nat, a: array<limb>, ao: nat, n: nat)
    requires n >= 1 && so + n <= s.Length && ao + 2 * n <= a.Length && s != a
    requires a[ao + 2 * n - 1] >= QUARTER
    modifies s, a
    ensures SqrtRem(old(Val(a[ao..ao + 2 * n])), Val(s[so..so + n]), Val(a[ao..ao + n + 1]))
    ensures a[ao + n] <= 1
    ensures Untouched(s, so, so + n) && Untouched(a, ao, ao + 2 * n)
  {
    hide Mul, Val, Pow, SqrtRem;
    var tmp := new limb[n / 2 + 1];
    var rh := MpSqrtRemRec(s, so, a, ao, n, tmp);
    ghost var R := a[ao..ao + n];
    a[ao + n] := rh;
    assert a[ao..ao + n + 1] == R + [rh];
    ValSnoc(R, rh);
  }
}
