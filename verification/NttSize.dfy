/** bf_get_fft_size: the transform length, the digit size and the number of moduli for a product. */
module NttSize {
  import opened Limbs
  import opened NttRoots
  import opened NttLoad
  import opened NttGarner

  const INT_BITS: seq<nat> := [307, 246, 185, 123, 61]

  /** The number of bits of x, that is 64 minus its leading zeros. */
  function BitLength(x: nat): nat {
    if x == 0 then 0 else 1 + BitLength(x / 2)
  }

  lemma {:induction false} BitLengthIs(x: nat)
    ensures x < P2(BitLength(x)) && (x > 0 ==> P2(BitLength(x) - 1) <= x)
  {
    if x > 0 {
      BitLengthIs(x / 2);
      if x / 2 > 0 {
        assert P2(BitLength(x) - 1) == 2 * P2(BitLength(x / 2) - 1);
      } else {
        assert P2(0) == 1;
      }
    }
  }

  /** ceil_log2 */
  function CeilLog2(a: nat): nat {
    if a <= 1 then 0 else BitLength(a - 1)
  }

  /** The least power of two that is at least a. */
  lemma CeilLog2Is(a: nat)
    ensures a <= P2(CeilLog2(a)) && (CeilLog2(a) > 0 ==> P2(CeilLog2(a) - 1) < a)
  {
    if a > 1 {
      BitLengthIs(a - 1);
    }
  }

  lemma CeilLog2Least(a: nat, k: nat)
    requires a <= P2(k)
    ensures CeilLog2(a) <= k
  {
    CeilLog2Is(a);
    if CeilLog2(a) > k {
      P2Monotone(k, CeilLog2(a) - 1);
    }
  }

  /** The largest number of limbs a product may have. */
  const MAX_LEN: nat := 0x10_0000_0000_0000

  /** A transform of 2^k digits of dpl bits over nb moduli holds a product of len limbs. */
  ghost predicate SizeOk(len: nat, k: nat, dpl: nat, nb: nat) {
    && 3 <= nb <= NB_MODS && 1 <= dpl && k <= PROOT_2EXP
    && DigitCount(len, dpl) <= P2(k) && k + 2 * dpl <= INT_BITS[NB_MODS - nb]
  }

  /** The largest digit size considered. */
  ghost function FirstDpl(nb: nat): nat
    requires 3 <= nb <= NB_MODS
  {
    Min((INT_BITS[NB_MODS - nb] - 4) / 2, DPL_MAX)
  }

  /** A size the search can find. */
  ghost predicate Admissible(len: nat, k: nat, dpl: nat, nb: nat) {
    SizeOk(len, k, dpl, nb) && dpl <= FirstDpl(nb)
  }

  /** No digit size above dpl is admissible for nb moduli. */
  ghost predicate NoneAbove(len: nat, dpl: nat, nb: nat) {
    forall k: nat, d: nat :: Admissible(len, k, d, nb) ==> d <= dpl
  }

  /** The inner loop: the largest digit size that is admissible for nb moduli, with the least length for it; none
      when there is no admissible size. */
  method FindDpl(len: nat, nb: nat) returns (dpl: nat, k: nat)
    requires 1 <= len && 3 <= nb <= NB_MODS
    ensures NoneAbove(len, dpl, nb)
    ensures dpl > 0 ==> k == CeilLog2(DigitCount(len, dpl)) && Admissible(len, k, dpl, nb)
    ensures nb == NB_MODS && len <= MAX_LEN ==> dpl > 0
    ensures nb == NB_MODS && len <= 2 ==> k == 0
  {
    hide P2, CeilLog2, NoneAbove;
    dpl := Min((INT_BITS[NB_MODS - nb] - 4) / 2, DPL_MAX);
    TinyLength(len, dpl);
    NoneAboveFirst(len, nb);
    while true
      invariant 0 < dpl <= FirstDpl(nb) && (nb == NB_MODS && len <= MAX_LEN ==> dpl >= 128)
      invariant nb == NB_MODS && len <= 2 ==> dpl == FirstDpl(nb)
      invariant NoneAbove(len, dpl, nb)
      decreases dpl
    {
      k := CeilLog2(DigitCount(len, dpl));
      CeilLog2Is(DigitCount(len, dpl));
      if dpl >= 128 && len <= MAX_LEN {
        LongDigits(len, dpl);
      }
      if k > PROOT_2EXP {
        NoneShorter(len, dpl, nb);
        return 0, 0;
      }
      if k + 2 * dpl <= INT_BITS[NB_MODS - nb] {
        return;
      }
      NotThis(len, dpl, nb);
      dpl := dpl - 1;
      if dpl == 0 {
        return;
      }
    }
  }

  lemma NoneAboveFirst(len: nat, nb: nat)
    requires 3 <= nb <= NB_MODS
    ensures NoneAbove(len, FirstDpl(nb), nb)
  {}

  lemma NotThis(len: nat, dpl: nat, nb: nat)
    requires 3 <= nb <= NB_MODS && dpl >= 1 && NoneAbove(len, dpl, nb)
    requires CeilLog2(DigitCount(len, dpl)) + 2 * dpl > INT_BITS[NB_MODS - nb]
    ensures NoneAbove(len, dpl - 1, nb)
  {
    hide P2, CeilLog2, DigitCount;
    forall k: nat, d: nat | Admissible(len, k, d, nb)
      ensures d <= dpl - 1
    {
      CeilLog2Least(DigitCount(len, d), k);
    }
  }

  /** Shorter digits make longer transforms. */
  lemma ShorterDigits(len: nat, d: nat, dpl: nat)
    requires 1 <= d <= dpl
    ensures DigitCount(len, dpl) <= DigitCount(len, d) && CeilLog2(DigitCount(len, dpl)) <= CeilLog2(DigitCount(len, d))
  {
    DigitCountIs(len, d);
    DigitCountIs(len, dpl);
    hide DigitCount, P2, CeilLog2;
    var n, n' := DigitCount(len, dpl), DigitCount(len, d);
    MulSwap(n', d);
    MulSwap(n', dpl);
    MulMono(d, dpl, n');
    FewerDigits(n, n', dpl, len * 64);
    CeilLog2Is(n');
    CeilLog2Least(n, CeilLog2(n'));
  }

  lemma FewerDigits(n: int, n': int, dpl: int, bits: int)
    requires Mul(n, dpl) < bits + dpl && bits <= Mul(n', dpl) && dpl >= 1
    ensures n <= n'
  {
    if n > n' {
      MulMono(n' + 1, n, dpl);
      MulDist(n', 1, dpl);
    }
  }

  lemma NoneShorter(len: nat, dpl: nat, nb: nat)
    requires dpl >= 1 && NoneAbove(len, dpl, nb) && CeilLog2(DigitCount(len, dpl)) > PROOT_2EXP
    ensures NoneAbove(len, 0, nb)
  {
    hide P2, CeilLog2, DigitCount;
    forall k: nat, d: nat | Admissible(len, k, d, nb)
      ensures false
    {
      ShorterDigits(len, d, dpl);
      CeilLog2Least(DigitCount(len, d), k);
    }
  }

  lemma LongestTransform()
    ensures P2(50) == 0x4_0000_0000_0000 && P2(51) == 0x8_0000_0000_0000
  {
    assert P2(10) == 1024 && P2(51) == 2 * P2(50);
    hide P2;
    P2Add(10, 10);
    P2Add(20, 20);
    P2Add(40, 10);
  }

  /** n digits of dpl bits have room for len limbs, and no digit is superfluous. */
  lemma DigitCountIs(len: nat, dpl: nat)
    requires dpl >= 1
    ensures len * 64 <= Mul(DigitCount(len, dpl), dpl) < len * 64 + dpl
  {
    var x := len * 64 + dpl - 1;
    assert x == Mul(x / dpl, dpl) + x % dpl;
  }

  /** With at least 128 bits a digit, the longest transform is long enough. */
  lemma LongDigits(len: nat, dpl: nat)
    requires 1 <= len <= MAX_LEN && dpl >= 128
    ensures CeilLog2(DigitCount(len, dpl)) <= PROOT_2EXP
  {
    LongestTransform();
    DigitCountIs(len, dpl);
    hide P2, DigitCount, CeilLog2;
    CountFits(DigitCount(len, dpl), dpl, len);
    CeilLog2Least(DigitCount(len, dpl), 51);
  }

  lemma CountFits(n: nat, dpl: nat, len: nat)
    requires Mul(n, dpl) < len * 64 + dpl && len <= MAX_LEN && dpl >= 128
    ensures n <= 0x8_0000_0000_0000
  {
    if n > 0x8_0000_0000_0000 {
      MulMono(128, dpl, n - 1);
      MulDist(n, 1, dpl);
      MulSwap(dpl, n - 1);
    }
  }

  /** Two limbs are a single digit of 151 bits. */
  lemma TinyLength(len: nat, dpl: nat)
    requires 1 <= len
    ensures dpl == 151 && len <= 2 ==> CeilLog2(DigitCount(len, dpl)) == 0
  {}

  /** ((fft_len_log2 + 1) << fft_len_log2) * nb_mods */
  ghost function Cost(k: nat, nb: nat): nat {
    MulMono(0, (k + 1) * P2(k), nb);
    (k + 1) * P2(k) * nb
  }

  lemma CostIs(k: nat, nb: nat)
    ensures (k + 1) * P2(k) * nb == Cost(k, nb) >= 0
  {}

  /** The cost of an admissible size is below the initial value of min_cost. */
  lemma CostFits(k: nat, nb: nat)
    requires k <= PROOT_2EXP && nb <= NB_MODS
    ensures Cost(k, nb) < BASE - 1
  {
    P2Monotone(k, 51);
    LongestTransform();
    hide P2;
    CostNumbers(k, P2(k), nb);
  }

  lemma CostNumbers(k: nat, p: nat, nb: nat)
    requires k <= 51 && p <= 0x8_0000_0000_0000 && nb <= 5
    ensures (k + 1) * p * nb < BASE - 1
  {
    MulMono(k + 1, 52, p);
    MulMono((k + 1) * p, 52 * p, nb);
    MulMono(nb, 5, 52 * p);
  }

  /** A transform of length one is cheaper than any other. */
  lemma SmallestCost(k: nat, nb: nat, n: nat)
    ensures n == NB_MODS && k >= 1 && nb >= 3 ==> Cost(0, n) < Cost(k, nb)
  {
    assert P2(0) == 1;
    if k >= 1 {
      P2Monotone(1, k);
      assert P2(1) == 2;
      MulMono(2, k + 1, P2(k));
      if nb >= 3 {
        MulMono(4, (k + 1) * P2(k), nb);
      }
    }
  }

  /** The size (k, nb) costs no more than any admissible one with fewer than n moduli. */
  ghost predicate Cheapest(len: nat, k: nat, nb: nat, n: nat) {
    forall l: nat, d: nat, m: nat :: Admissible(len, l, d, m) && m < n ==> Cost(k, nb) <= Cost(l, m)
  }

  /** There is no admissible size with fewer than n moduli. */
  ghost predicate NoneBelow(len: nat, n: nat) {
    forall l: nat, d: nat, m: nat :: Admissible(len, l, d, m) ==> m >= n
  }

  lemma CostMonotone(k: nat, l: nat, nb: nat)
    requires k <= l
    ensures Cost(k, nb) <= Cost(l, nb)
  {
    P2Monotone(k, l);
    hide P2;
    MulMono(k + 1, l + 1, P2(k));
    MulSwap(l + 1, P2(k));
    MulSwap(l + 1, P2(l));
    MulMono(P2(k), P2(l), l + 1);
    MulMono((k + 1) * P2(k), (l + 1) * P2(l), nb);
  }

  /** For one number of moduli the largest digits are the cheapest. */
  lemma LargestCheapest(len: nat, k: nat, dpl: nat, nb: nat, l: nat, d: nat)
    requires NoneAbove(len, dpl, nb) && Admissible(len, l, d, nb) && dpl >= 1 && k == CeilLog2(DigitCount(len, dpl))
    ensures Cost(k, nb) <= Cost(l, nb)
  {
    hide P2, CeilLog2, DigitCount, Cost;
    assert d <= dpl;
    ShorterDigits(len, d, dpl);
    CeilLog2Least(DigitCount(len, d), l);
    CostMonotone(k, l, nb);
  }

  /** One more number of moduli tried. */
  lemma TriedOne(len: nat, n: nat, dpl: nat, k: nat, found: bool, bestK: nat, bestNb: nat, k': nat, nb': nat)
    requires 3 <= n <= NB_MODS && NoneAbove(len, dpl, n) && (dpl > 0 ==> k == CeilLog2(DigitCount(len, dpl)))
    requires if found then Cheapest(len, bestK, bestNb, n) else NoneBelow(len, n)
    requires
      if dpl > 0 && (!found || Cost(k, n) < Cost(bestK, bestNb)) then k' == k && nb' == n
      else k' == bestK && nb' == bestNb
    ensures if found || dpl > 0 then Cheapest(len, k', nb', n + 1) else NoneBelow(len, n + 1)
  {
    hide P2, CeilLog2, DigitCount, Cost, SizeOk;
    forall l: nat, d: nat, m: nat | Admissible(len, l, d, m) && m < n + 1
      ensures (found || dpl > 0) && Cost(k', nb') <= Cost(l, m)
    {
      if m == n {
        DigitsPositive(len, l, d, m);
        LargestCheapest(len, k, dpl, n, l, d);
      }
    }
  }

  lemma DigitsPositive(len: nat, k: nat, dpl: nat, nb: nat)
    requires Admissible(len, k, dpl, nb)
    ensures dpl >= 1
  {}

  /** bf_get_fft_size: the cheapest admissible size, if there is one. Where none is found, the source aborts. */
  method GetFftSize(len: nat) returns (found: bool, k: nat, dpl: nat, nb: nat)
    requires 1 <= len
    ensures found <==> len <= MAX_LEN
    ensures found <==> exists l: nat, d: nat, m: nat :: SizeOk(len, l, d, m)
    ensures found ==> SizeOk(len, k, dpl, nb) && dpl <= DPL_MAX && (k == 0 <==> len <= 2)
    ensures found ==> Cheapest(len, k, nb, NB_MODS + 1)
  {
    hide P2, Cost, CeilLog2, DigitCount, SizeOk, NoneAbove, Cheapest, NoneBelow;
    var minCost: nat := BASE - 1;
    k, dpl, nb := 0, 0, 4;
    var n := 3;
    NothingTried(len);
    while n <= NB_MODS
      invariant 3 <= n <= NB_MODS + 1 && (dpl == 0 ==> minCost == BASE - 1)
      invariant n == NB_MODS + 1 && len <= MAX_LEN ==> dpl > 0 && (len <= 2 ==> k == 0)
      invariant dpl > 0 ==> minCost == Cost(k, nb) && 3 <= nb && k <= PROOT_2EXP
      invariant dpl > 0 ==> SizeOk(len, k, dpl, nb) && dpl <= DPL_MAX && (len >= 3 ==> k >= 1)
      invariant if dpl > 0 then Cheapest(len, k, nb, n) else NoneBelow(len, n)
    {
      var d, l := FindDpl(len, n);
      ghost var dpl0, k0, nb0 := dpl, k, nb;
      if d > 0 {
        SizeBounds(len, l, d, n);
        CostFits(l, n);
        SmallestCost(k, nb, n);
        var cost := (l + 1) * P2(l) * n;
        CostIs(l, n);
        if cost < minCost {
          ManyDigits(len, d, l, n);
          minCost, k, dpl, nb := cost, l, d, n;
        }
      }
      TriedOne(len, n, d, l, dpl0 > 0, k0, nb0, k, nb);
      n := n + 1;
    }
    SizeExists(len);
    if dpl == 0 {
      return false, k, dpl, nb;
    }
    SizeLimit(len, k, dpl, nb);
    // short digits are converted faster, so they are taken when the length allows it
    if dpl > DPL_SHORT && DPL_SHORT * P2(k) >= len * 64 {
      ShortDigits(len, k, dpl, nb);
      dpl := DPL_SHORT;
    }
    return true, k, dpl, nb;
  }

  lemma NothingTried(len: nat)
    ensures NoneBelow(len, 3)
  {}

  lemma SizeBounds(len: nat, k: nat, dpl: nat, nb: nat)
    requires Admissible(len, k, dpl, nb)
    ensures SizeOk(len, k, dpl, nb) && k <= PROOT_2EXP && 3 <= nb <= NB_MODS
  {}

  lemma ManyDigits(len: nat, dpl: nat, k: nat, nb: nat)
    requires SizeOk(len, k, dpl, nb)
    ensures dpl <= DPL_MAX && (len >= 3 ==> k >= 1)
  {
    DigitCountIs(len, dpl);
    MulMono(DigitCount(len, dpl), P2(k), dpl);
  }

  lemma ShortDigits(len: nat, k: nat, dpl: nat, nb: nat)
    requires DPL_SHORT * P2(k) >= len * 64 && SizeOk(len, k, dpl, nb) && dpl > DPL_SHORT
    ensures SizeOk(len, k, DPL_SHORT, nb)
  {}

  /** There is a size exactly up to the largest length. */
  lemma SizeExists(len: nat)
    requires len >= 1
    ensures (exists k: nat, dpl: nat, nb: nat :: SizeOk(len, k, dpl, nb)) <==> len <= MAX_LEN
  {
    hide SizeOk;
    if len <= MAX_LEN {
      LargestSize(len);
    }
    forall k: nat, dpl: nat, nb: nat | SizeOk(len, k, dpl, nb)
      ensures len <= MAX_LEN
    {
      SizeLimit(len, k, dpl, nb);
    }
  }

  lemma LargestSize(len: nat)
    requires 1 <= len <= MAX_LEN
    ensures SizeOk(len, PROOT_2EXP, 128, NB_MODS)
  {
    LongDigits(len, 128);
    CeilLog2Is(DigitCount(len, 128));
    P2Monotone(CeilLog2(DigitCount(len, 128)), PROOT_2EXP);
  }

  lemma SizeLimit(len: nat, k: nat, dpl: nat, nb: nat)
    requires SizeOk(len, k, dpl, nb)
    ensures len <= MAX_LEN
  {
    LongestTransform();
    DigitCountIs(len, dpl);
    P2Monotone(k, if k <= 50 then 50 else 51);
    hide P2, DigitCount;
    CapacityLimit(DigitCount(len, dpl), P2(k), dpl, k);
  }

  lemma CapacityLimit(n: nat, p: nat, dpl: nat, k: nat)
    requires n <= p && k + 2 * dpl <= 307 && (k <= 50 ==> p <= 0x4_0000_0000_0000) && p <= 0x8_0000_0000_0000 && k <= 51
    requires k > 50 || dpl <= 153
    ensures Mul(n, dpl) <= 64 * MAX_LEN
  {
    MulMono(n, p, dpl);
    MulSwap(p, dpl);
    if k <= 50 {
      MulMono(dpl, 153, p);
    } else {
      MulMono(dpl, 128, p);
    }
  }

  // The product of the moduli.

  lemma {:induction false} ProductSplit(ms: seq<int>, j: nat)
    requires j < |ms|
    ensures Product(ms[j..]) == ms[j] * Product(ms[j + 1..])
  {
    assert ms[j..][1..] == ms[j + 1..];
  }

  lemma Product3()
    ensures Product(MODS[2..]) == 0x23930d62e000000209679c0000000009e88000000000001
  {
    ProductSplit(MODS, 4);
    ProductSplit(MODS, 3);
    ProductSplit(MODS, 2);
    assert MODS[5..] == [] && Product([]) == 1;
  }

  lemma Product5()
    ensures Product(MODS[1..]) == 0x5e90651554700007a330c05c0000003aed020000000000c910000000000001
    ensures Product(MODS[0..]) == 0xf1659a09f30be819681b4460210001109f10a0c0000005b01278000000000f1e8000000000001
  {
    Product3();
    ProductSplit(MODS, 1);
    ProductSplit(MODS, 0);
  }

  lemma P2Powers()
    ensures P2(185) == 0x20000000000000000000000000000000000000000000000
    ensures P2(246) == 0x40000000000000000000000000000000000000000000000000000000000000
    ensures P2(307) == 0x80000000000000000000000000000000000000000000000000000000000000000000000000000
  {
    P2Limb();
    LongestTransform();
    P2Sixty();
    assert P2(61) == 2 * P2(60);
    hide P2;
    P2Add(64, 61);
    P2Add(125, 60);
    P2Add(185, 61);
    P2Add(246, 61);
  }

  lemma P2Sixty()
    ensures P2(60) == 0x1000_0000_0000_0000
  {
    P2Limb();
    assert P2(64) == 2 * P2(63) && P2(63) == 2 * P2(62) && P2(62) == 2 * P2(61) && P2(61) == 2 * P2(60);
  }

  /** The integers of ntt_int_bits are what they are taken for. */
  lemma ModuliProduct(nb: nat)
    requires 3 <= nb <= NB_MODS
    ensures P2(INT_BITS[NB_MODS - nb]) <= Product(Moduli(nb))
  {
    hide P2, Product;
    P2Powers();
    Product3();
    Product5();
  }
}
