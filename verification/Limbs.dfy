/** Limbs, limb sequences and the natural numbers they denote.
    A limb is one 64-bit word; a sequence of limbs is little endian. */
module Limbs {

  const HALF: int := 0x8000_0000_0000_0000
  const BASE: int := 0x1_0000_0000_0000_0000

  const DOUBLE_BASE: int := 0x1_0000_0000_0000_0000_0000_0000_0000_0000

  type limb = x: int | 0 <= x < BASE

  /** Plain multiplication under a name: methods hide its body so that their own obligations stay
      linear, and lemmas about numbers see through it. */
  function Mul(x: int, y: int): int {
    x * y
  }

  /** BASE to the power n. */
  ghost function Pow(n: nat): (r: nat)
    ensures r >= 1
  {
    if n == 0 then 1 else Pow(n - 1) * BASE
  }

  /** Powers of two, for bit positions inside a limb. */
  function P2(k: nat): (r: nat)
    ensures r >= 1
  {
    if k == 0 then 1 else 2 * P2(k - 1)
  }

  lemma {:induction false} P2Add(j: nat, k: nat)
    ensures P2(j + k) == P2(j) * P2(k)
  {
    if j > 0 {
      P2Add(j - 1, k);
      MulAssoc(2, P2(j - 1), P2(k));
    }
  }

  lemma P2Limb()
    ensures P2(32) == 0x1_0000_0000 && P2(63) == HALF && P2(64) == BASE
  {
    assert P2(8) == 256;
    assert P2(64) == 2 * P2(63);
    hide P2;
    P2Add(8, 8);
    P2Add(16, 16);
    P2Add(32, 32);
  }

  lemma P2Split(shift: nat)
    requires shift <= 64
    ensures P2(shift) * P2(64 - shift) == BASE
  {
    P2Limb();
    P2Add(shift, 64 - shift);
  }

  lemma DivModUnique(n: int, d: int, q: int, r: int)
    requires d > 0 && n == q * d + r && 0 <= r < d
    ensures n / d == q && n % d == r
  {
    var q', r' := n / d, n % d;
    assert n == q' * d + r';
    MulDist(q, q', d);
    if q' > q {
      MulMono(1, q' - q, d);
      MulDist(q', q, d);
    } else if q' < q {
      MulMono(1, q - q', d);
    }
  }

  /** The number denoted by a little-endian limb sequence. */
  ghost function Val(s: seq<limb>): nat {
    if |s| == 0 then 0 else Val(s[..|s| - 1]) + s[|s| - 1] * Pow(|s| - 1)
  }

  lemma {:induction false} PowAdd(m: nat, n: nat)
    ensures Pow(m + n) == Mul(Pow(m), Pow(n))
  {
    if n > 0 {
      PowAdd(m, n - 1);
      assert Pow(m + n) == Pow(m + n - 1) * BASE;
      assert Pow(n) == Pow(n - 1) * BASE;
      MulAssoc(Pow(m), Pow(n - 1), BASE);
    }
  }

  lemma PowMonotone(m: nat, n: nat)
    requires m <= n
    ensures Pow(m) <= Pow(n)
  {
    PowAdd(m, n - m);
    MulMono(1, Pow(n - m), Pow(m));
  }

  lemma MulUnit(x: int)
    ensures Mul(1, x) == Mul(x, 1) == x && Mul(0, x) == Mul(x, 0) == 0
  {}

  lemma MulSwap(x: int, y: int)
    ensures Mul(x, y) == Mul(y, x)
  {}

  lemma MulAssoc(x: int, y: int, z: int)
    ensures x * (y * z) == (x * y) * z
  {}

  lemma MulMono(x: int, y: int, z: int)
    requires x <= y && 0 <= z
    ensures x * z <= y * z
  {}

  lemma MulNeg(x: int, y: int)
    ensures (-x) * y == -(x * y)
  {}

  lemma MulDist(x: int, y: int, z: int)
    ensures (x + y) * z == x * z + y * z
    ensures (x - y) * z == x * z - y * z
    ensures z * (x + y) == z * x + z * y
    ensures z * (x - y) == z * x - z * y
  {}

  /** A limb sequence of length n denotes a number below BASE^n. */
  lemma {:induction false} ValBound(s: seq<limb>)
    ensures Val(s) < Pow(|s|)
  {
    if |s| > 0 {
      ValBound(s[..|s| - 1]);
      MulMono(s[|s| - 1], BASE - 1, Pow(|s| - 1));
    }
  }

  lemma ValSnoc(s: seq<limb>, x: limb)
    ensures Val(s + [x]) == Val(s) + Mul(x, Pow(|s|))
  {
    assert (s + [x])[..|s|] == s;
  }

  /** One more limb of a prefix. */
  lemma ValPrefix(s: seq<limb>, i: nat)
    requires i < |s|
    ensures Val(s[..i + 1]) == Val(s[..i]) + Mul(s[i], Pow(i))
  {
    assert s[..i + 1][..i] == s[..i];
  }

  /** One more limb of a segment. */
  lemma ValSegment(s: seq<limb>, o: nat, i: nat)
    requires o + i < |s|
    ensures Val(s[o..o + i + 1]) == Val(s[o..o + i]) + Mul(s[o + i], Pow(i))
  {
    hide Val, Pow;
    var u := s[o..o + i];
    assert s[o..o + i + 1] == u + [s[o + i]];
    ValSnoc(u, s[o + i]);
  }

  /** Concatenation is positional: the high part is scaled by the length of the low part. */
  lemma {:induction false} ValConcat(s: seq<limb>, t: seq<limb>)
    ensures Val(s + t) == Val(s) + Mul(Pow(|s|), Val(t))
  {
    if |t| == 0 {
      assert s + t == s;
    } else {
      var t' := t[..|t| - 1];
      var x := t[|t| - 1];
      ValConcat(s, t');
      assert s + t == (s + t') + [x];
      assert t == t' + [x];
      ValSnoc(s + t', x);
      ValSnoc(t', x);
      PowAdd(|s|, |t'|);
      MulDist(Val(t'), x * Pow(|t'|), Pow(|s|));
      MulAssoc(Pow(|s|), x, Pow(|t'|));
      MulAssoc(x, Pow(|s|), Pow(|t'|));
    }
  }

  lemma ValCons(x: limb, s: seq<limb>)
    ensures Val([x] + s) == x + BASE * Val(s)
  {
    ValConcat([x], s);
    ValOne([x]);
    assert Pow(1) == Pow(0) * BASE;
  }

  /** A sequence splits at any point. */
  lemma ValSplit(s: seq<limb>, i: nat)
    requires i <= |s|
    ensures Val(s) == Val(s[..i]) + Mul(Pow(i), Val(s[i..]))
  {
    assert s == s[..i] + s[i..];
    ValConcat(s[..i], s[i..]);
  }

  lemma ValOne(s: seq<limb>)
    requires |s| == 1
    ensures Val(s) == s[0]
  {
    assert s[..0] == [];
    assert Pow(0) == 1;
  }

  /** The top limb decides normalization: a leading limb at or above h means the value is at or above h * BASE^(n-1). */
  lemma ValTop(s: seq<limb>)
    requires |s| > 0
    ensures Mul(s[|s| - 1], Pow(|s| - 1)) <= Val(s) < Mul(s[|s| - 1], Pow(|s| - 1)) + Pow(|s| - 1)
  {
    ValBound(s[..|s| - 1]);
  }

  lemma {:induction false} ValZeros(s: seq<limb>)
    ensures (forall i :: 0 <= i < |s| ==> s[i] == 0) <==> Val(s) == 0
  {
    if |s| > 0 {
      ValZeros(s[..|s| - 1]);
      var x := s[|s| - 1];
      if x > 0 {
        MulMono(1, x, Pow(|s| - 1));
      } else {
        assert x * Pow(|s| - 1) == 0;
        assert forall i :: 0 <= i < |s| - 1 ==> s[i] == s[..|s| - 1][i];
      }
    }
  }

  /** Distinct leading limbs separate the values. */
  lemma ValTopLess(s: seq<limb>, t: seq<limb>)
    requires |s| == |t| > 0
    requires s[|s| - 1] < t[|t| - 1]
    ensures Val(s) < Val(t)
  {
    ValTop(s);
    ValTop(t);
    MulMono(s[|s| - 1] + 1, t[|t| - 1], Pow(|s| - 1));
    MulDist(s[|s| - 1], 1, Pow(|s| - 1));
  }

  lemma PowNext(n: nat)
    ensures Pow(n + 1) == Pow(n) * BASE
  {}

  /** Limb sequences of one length are determined by their value. */
  lemma {:induction false} ValInjective(s: seq<limb>, t: seq<limb>)
    requires |s| == |t|
    requires Val(s) == Val(t)
    ensures s == t
  {
    if |s| > 0 {
      var n := |s| - 1;
      if s[n] < t[n] {
        ValTopLess(s, t);
      } else if t[n] < s[n] {
        ValTopLess(t, s);
      } else {
        ValInjective(s[..n], t[..n]);
        assert s == s[..n] + [s[n]];
        assert t == t[..n] + [t[n]];
      }
    }
  }
}
