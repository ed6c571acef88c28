/** The limb loops of bf_add_internal: the sum or difference of two aligned numbers, cut off below the
    precision with a sticky bit. */
module FloatSum {
  import opened Limbs
  import opened LimbArith
  import opened BitFields
  import opened NttStore
  import opened FloatSpec
  import opened FloatAlign
  import opened FloatDiv

  /** The limbs R so far, with the carry, are the low limbs of x + y, or of x - y when the limbs of y are
      complemented. */
  ghost predicate SumInv(R: seq<limb>, x: seq<limb>, y: seq<limb>, sub: bool, carry: int) {
    0 <= carry <= 1 && if sub then Borrowed(R, x, y, 1, 0, 1 - carry) else Linear(R, x, y, 1, 0, carry)
  }

  lemma SumStart(x: seq<limb>, y: seq<limb>, sub: bool)
    requires |x| == |y|
    ensures SumInv([], x, y, sub, if sub then 1 else 0)
  {
    LinearStart(x, y, 1, 0);
    BorrowStart(x, y, 1, 0);
  }

  /** v2 ^ sub_mask */
  function Masked(v: limb, sub: bool): limb {
    if sub then BASE - 1 - v else v
  }

  lemma SumStep(R: seq<limb>, x: seq<limb>, y: seq<limb>, sub: bool, carry: int, u: limb, carry': int)
    requires SumInv(R, x, y, sub, carry) && |R| < |x| == |y| && 0 <= carry' <= 1
    requires x[|R|] + Masked(y[|R|], sub) + carry == u + carry' * BASE
    ensures SumInv(R + [u], x, y, sub, carry')
  {
    if sub {
      BorrowStep(R, x, y, 1, 0, 1 - carry, u, 1 - carry');
    } else {
      LinearStep(R, x, y, 1, 0, carry, u, carry');
    }
  }

  ghost predicate AnySet(s: seq<limb>) {
    exists i :: 0 <= i < |s| && s[i] != 0
  }

  lemma AnySetConcat(s: seq<limb>, t: seq<limb>)
    ensures AnySet(s + t) <==> AnySet(s) || AnySet(t)
  {
    var u := s + t;
    assert forall i :: 0 <= i < |s| ==> u[i] == s[i];
    assert forall i :: 0 <= i < |t| ==> u[|s| + i] == t[i];
  }

  /** Limbs outside both numbers: one step stands for all of them, neither carry nor sticky bit is lost. */
  lemma {:induction false} SkipLimbs(R: seq<limb>, x: seq<limb>, y: seq<limb>, sub: bool, carry: int, u: limb,
                                     carry': int, end: nat)
    returns (R': seq<limb>)
    requires SumInv(R, x, y, sub, carry) && |R| < end <= |x| == |y| && 0 <= carry' <= 1
    requires forall j :: |R| <= j < end ==> x[j] == 0 && y[j] == 0
    requires Masked(0, sub) + carry == u + carry' * BASE
    ensures |R'| == end && SumInv(R', x, y, sub, carry') && (AnySet(R') <==> AnySet(R) || u != 0)
    decreases end - |R|
  {
    hide AnySet, SumInv;
    CarryRange(R, x, y, sub, carry);
    SumStep(R, x, y, sub, carry, u, carry');
    AnySetConcat(R, [u]);
    AnyOne(u);
    var next := R + [u];
    if |next| == end {
      R' := next;
    } else {
      R' := SkipLimbs(next, x, y, sub, carry', if sub then u else 0, carry', end);
    }
  }

  lemma CarryRange(R: seq<limb>, x: seq<limb>, y: seq<limb>, sub: bool, carry: int)
    requires SumInv(R, x, y, sub, carry)
    ensures 0 <= carry <= 1
  {}

  lemma AnyOne(u: limb)
    ensures AnySet([u]) <==> u != 0
  {
    assert [u][0] == u;
  }

  /** Outside the bits of b there is nothing to read. */
  lemma OutsideZero(b: seq<limb>, pos: int)
    requires pos + 64 <= 0 || pos >= 64 * |b|
    ensures TwoLimbs(LimbZ(b, pos / 64), LimbZ(b, pos / 64 + 1), pos % 64) == 0
  {
    hide TwoLimbs;
    NttStore.ZeroLimbs(pos % 64);
    if pos + 64 <= 0 {
      if pos / 64 + 1 == 0 {
        assert pos % 64 == 0;
        AlignedBits(LimbZ(b, 0));
      }
    }
  }

  lemma AlignedBits(v: limb)
    ensures TwoLimbs(0, v, 0) == 0
  {}

  /** The limbs of the aligned numbers. */
  ghost function Limbs1(a: seq<limb>, tot: nat): (s: seq<limb>)
    requires |a| <= tot
    ensures |s| == tot
  {
    LimbsBelow(First(a, tot), tot)
  }

  ghost function Limbs2(b: seq<limb>, d: nat, tot: nat): (s: seq<limb>)
    requires |b| <= tot
    ensures |s| == tot
  {
    LimbsBelow(Second(b, d, tot), tot)
  }

  lemma LimbsAt(a: seq<limb>, b: seq<limb>, d: nat, tot: nat, j: nat)
    requires |a| <= tot && |b| <= tot && j < tot
    ensures Limbs1(a, tot)[j] == LimbZ(a, |a| - tot + j)
    ensures
      var pos := 64 * (|b| - tot + j) + d;
      Limbs2(b, d, tot)[j] == TwoLimbs(LimbZ(b, pos / 64), LimbZ(b, pos / 64 + 1), pos % 64)
  {
    hide LimbOf, First, Second, TwoLimbs;
    FirstLimb(a, tot, j);
    SecondLimb(b, d, tot, j);
  }

  /** The limbs read at one position, and whether the position is inside a number. */
  method ReadLimbs(a: seq<limb>, b: seq<limb>, ap: int, bp: int) returns (v1: limb, v2: limb, inflag: bool)
    ensures v1 == LimbZ(a, ap) && v2 == TwoLimbs(LimbZ(b, bp / 64), LimbZ(b, bp / 64 + 1), bp % 64)
    ensures !inflag ==> (ap < 0 || ap >= |a|) && (bp + 64 <= 0 || bp >= 64 * |b|)
  {
    hide TwoLimbs;
    inflag := false;
    if 0 <= ap < |a| {
      v1 := a[ap];
      inflag := true;
    } else {
      v1 := 0;
    }
    if bp + 64 > 0 && bp < |b| * 64 {
      v2 := GetBitsZ(b, bp);
      inflag := true;
    } else {
      OutsideZero(b, bp);
      v2 := 0;
    }
  }

  /** The next position: the following one, or the next one inside a number. */
  function NextPosition(i: int, ap: int, bp: int, aOffset: int, bBitOffset: int, inflag: bool): int {
    if inflag then i + 1
    else
      var i1 := if ap < 0 && -aOffset < 0 then -aOffset else 0;
      if bp + 64 <= 0 && (-bBitOffset) / 64 < i1 then (-bBitOffset) / 64 else i1
  }

  /** Between a position outside both numbers and the next one both numbers are zero. */
  lemma NothingBetween(a: seq<limb>, b: seq<limb>, d: nat, tot: nat, rlen: nat, i: int, i': int)
    requires |a| <= tot && |b| <= tot && 1 <= rlen <= tot && rlen - tot <= i < 0
    requires
      var aOffset, bBitOffset := |a| - rlen, (|b| - rlen) * 64 + d;
      var ap, bp := aOffset + i, bBitOffset + i * 64;
      && (ap < 0 || ap >= |a|) && (bp + 64 <= 0 || bp >= 64 * |b|)
      && i' == NextPosition(i, ap, bp, aOffset, bBitOffset, false)
    ensures i < i' <= 0
    ensures forall j :: i + tot - rlen <= j < i' + tot - rlen ==> Limbs1(a, tot)[j] == 0 && Limbs2(b, d, tot)[j] == 0
  {
    hide Limbs1, Limbs2, TwoLimbs;
    forall j | i + tot - rlen <= j < i' + tot - rlen
      ensures Limbs1(a, tot)[j] == 0 && Limbs2(b, d, tot)[j] == 0
    {
      LimbsAt(a, b, d, tot, j);
      OutsideZero(b, 64 * (|b| - tot + j) + d);
    }
  }

  /** The limbs below the result. */
  method SumLow(a: seq<limb>, b: seq<limb>, d: nat, rlen: nat, tot: nat, sub: bool)
    returns (carry: limb, z: bool, ghost R: seq<limb>)
    requires |a| <= tot && |b| <= tot && 1 <= rlen <= tot
    ensures |R| == tot - rlen && carry <= 1 && SumInv(R, Limbs1(a, tot), Limbs2(b, d, tot), sub, carry)
    ensures z <==> AnySet(R)
  {
    hide SumInv, AnySet, Limbs1, Limbs2, TwoLimbs;
    ghost var x, y := Limbs1(a, tot), Limbs2(b, d, tot);
    var aOffset, bBitOffset := |a| - rlen, (|b| - rlen) * 64 + d;
    carry := if sub then 1 else 0;
    z := false;
    R := [];
    SumStart(x, y, sub);
    NothingSet();
    var i := rlen - tot;
    while i < 0
      invariant rlen - tot <= i <= 0 && |R| == i + tot - rlen && carry <= 1
      invariant SumInv(R, x, y, sub, carry) && (z <==> AnySet(R))
      decreases -i
    {
      var ap, bp := aOffset + i, bBitOffset + i * 64;
      var v1, v2, inflag := ReadLimbs(a, b, ap, bp);
      var i' := NextPosition(i, ap, bp, aOffset, bBitOffset, inflag);
      var u, carry' := AddLimb(v1, Masked(v2, sub), carry);
      R := GhostStep(a, b, d, rlen, tot, sub, i, i', inflag, R, carry, v1, v2, u, carry');
      z := z || u != 0;
      carry := carry';
      i := i';
    }
  }

  lemma NothingSet()
    ensures !AnySet([])
  {}

  /** What one turn of the loop adds to the sum. */
  lemma GhostStep(a: seq<limb>, b: seq<limb>, d: nat, rlen: nat, tot: nat, sub: bool, i: int, i': int, inflag: bool,
                  R: seq<limb>, carry: int, v1: limb, v2: limb, u: limb, carry': int) returns (R': seq<limb>)
    requires |a| <= tot && |b| <= tot && 1 <= rlen <= tot && rlen - tot <= i < 0 && |R| == i + tot - rlen
    requires SumInv(R, Limbs1(a, tot), Limbs2(b, d, tot), sub, carry) && 0 <= carry' <= 1
    requires v1 + Masked(v2, sub) + carry == u + carry' * BASE
    requires
      var aOffset, bBitOffset := |a| - rlen, (|b| - rlen) * 64 + d;
      var ap, bp := aOffset + i, bBitOffset + i * 64;
      && v1 == LimbZ(a, ap) && v2 == TwoLimbs(LimbZ(b, bp / 64), LimbZ(b, bp / 64 + 1), bp % 64)
      && (!inflag ==> (ap < 0 || ap >= |a|) && (bp + 64 <= 0 || bp >= 64 * |b|))
      && i' == NextPosition(i, ap, bp, aOffset, bBitOffset, inflag)
    ensures i < i' <= 0 && |R'| == i' + tot - rlen && SumInv(R', Limbs1(a, tot), Limbs2(b, d, tot), sub, carry')
    ensures AnySet(R') <==> AnySet(R) || u != 0
  {
    hide SumInv, AnySet, Limbs1, Limbs2, TwoLimbs;
    var x, y := Limbs1(a, tot), Limbs2(b, d, tot);
    LimbsAt(a, b, d, tot, |R|);
    if inflag {
      SumStep(R, x, y, sub, carry, u, carry');
      AnySetConcat(R, [u]);
      AnyOne(u);
      R' := R + [u];
    } else {
      NothingBetween(a, b, d, tot, rlen, i, i');
      R' := SkipLimbs(R, x, y, sub, carry, u, carry', i' + tot - rlen);
    }
  }

  /** The sum of the mantissas: the top rlen limbs, with a sticky bit for those below. */
  method SumMantissas(a: seq<limb>, b: seq<limb>, d: nat, rlen: nat, tot: nat, sub: bool)
    returns (tab: seq<limb>, carry: limb, ghost R: seq<limb>)
    requires |a| <= tot && |b| <= tot && 1 <= rlen <= tot
    ensures |R| == tot && |tab| == rlen && carry <= 1 && SumInv(R, Limbs1(a, tot), Limbs2(b, d, tot), sub, carry)
    ensures Val(tab) == Sticky(Val(R[tot - rlen..]), Val(R[..tot - rlen]) == 0)
  {
    hide SumInv, AnySet, Limbs1, Limbs2, TwoLimbs, Val, Sticky;
    var z;
    carry, z, R := SumLow(a, b, d, rlen, tot, sub);
    ghost var low := R;
    var aOffset, bBitOffset := |a| - rlen, (|b| - rlen) * 64 + d;
    tab := [];
    var i := 0;
    while i < rlen
      invariant 0 <= i <= rlen && |tab| == i && R == low + tab && carry <= 1
      invariant SumInv(R, Limbs1(a, tot), Limbs2(b, d, tot), sub, carry)
    {
      var v1 := LimbZ(a, aOffset + i);
      var v2 := GetBitsZ(b, bBitOffset + i * 64);
      LimbsAt(a, b, d, tot, |R|);
      var u, carry' := AddLimb(v1, Masked(v2, sub), carry);
      SumStep(R, Limbs1(a, tot), Limbs2(b, d, tot), sub, carry, u, carry');
      tab := tab + [u];
      R := R + [u];
      carry := carry';
      i := i + 1;
    }
    assert R[tot - rlen..] == tab && R[..tot - rlen] == low;
    SetIsPositive(low);
    tab := SetSticky(tab, z);
  }

  lemma SetIsPositive(s: seq<limb>)
    ensures AnySet(s) <==> Val(s) != 0
  {
    ValZeros(s);
  }
}
