/** Sets of code points as lists of end points (libunicode.c): union, intersection, difference, complement,
    and the clean-up of unsorted intervals. */
module CharRanges {
  import opened SortSpec
  import opened HybridSort

  const UINT32_MAX: int := 0xffff_ffff

  type point = x: int | 0 <= x <= UINT32_MAX

  /** CR_OP_UNION and the other operations. */
  datatype SetOp = Union | Inter | Xor

  // What a list of points means.

  /** The points not above c. */
  ghost function Count(s: seq<point>, c: int): nat {
    if s == [] then 0 else Count(s[..|s| - 1], c) + if s[|s| - 1] <= c then 1 else 0
  }

  /** c is in the set: an odd number of points has been passed. */
  ghost predicate Member(s: seq<point>, c: int) {
    Count(s, c) % 2 == 1
  }

  ghost predicate Increasing(s: seq<point>) {
    forall i, j :: 0 <= i < j < |s| ==> s[i] <= s[j]
  }

  ghost predicate Strict(s: seq<point>) {
    forall i, j :: 0 <= i < j < |s| ==> s[i] < s[j]
  }

  /** A proper list: pairs of points in weakly increasing order. */
  ghost predicate Proper(s: seq<point>) {
    Increasing(s) && |s| % 2 == 0
  }

  /** The list as the operations leave it. */
  ghost predicate Compressed(s: seq<point>) {
    Strict(s) && |s| % 2 == 0
  }

  lemma CountSnoc(s: seq<point>, v: point, c: int)
    ensures Count(s + [v], c) == Count(s, c) + if v <= c then 1 else 0
  {
    assert (s + [v])[..|s|] == s;
  }

  lemma {:induction false} CountConcat(s: seq<point>, t: seq<point>, c: int)
    ensures Count(s + t, c) == Count(s, c) + Count(t, c)
    decreases |t|
  {
    if t == [] {
      assert s + t == s;
    } else {
      var n := |t| - 1;
      assert s + t == (s + t[..n]) + [t[n]];
      CountSnoc(s + t[..n], t[n], c);
      CountConcat(s, t[..n], c);
    }
  }

  lemma {:induction false} CountAll(s: seq<point>, c: int)
    requires forall i :: 0 <= i < |s| ==> s[i] <= c
    ensures Count(s, c) == |s|
  {
    if s != [] {
      CountAll(s[..|s| - 1], c);
    }
  }

  lemma {:induction false} CountNone(s: seq<point>, c: int)
    requires forall i :: 0 <= i < |s| ==> s[i] > c
    ensures Count(s, c) == 0
  {
    if s != [] {
      CountNone(s[..|s| - 1], c);
    }
  }

  /** In a proper list the members are those inside an interval. */
  ghost predicate Covered(s: seq<point>, c: int) {
    exists k :: InInterval(s, k, c)
  }

  ghost predicate InInterval(s: seq<point>, k: int, c: int) {
    0 <= k && 2 * k + 1 < |s| && s[2 * k] <= c < s[2 * k + 1]
  }

  lemma {:induction false} CoveredMember(s: seq<point>, c: int)
    requires Proper(s)
    ensures Covered(s, c) <==> Member(s, c)
    decreases |s|
  {
    if |s| >= 2 {
      var n := |s| - 2;
      var t, x, y := s[..n], s[n], s[n + 1];
      CoveredMember(t, c);
      assert s == t + [x, y];
      PairMembers(t, x, y, c);
      CoveredPair(t, x, y, c);
    }
  }

  lemma PairMembers(t: seq<point>, x: point, y: point, c: int)
    requires |t| % 2 == 0 && AllUpTo(t, x) && x <= y
    ensures Member(t + [x, y], c) <==> Member(t, c) || x <= c < y
  {
    assert t + [x, y] == t + [x] + [y];
    CountSnoc(t, x, c);
    CountSnoc(t + [x], y, c);
    if x <= c {
      CountAll(t, c);
    }
  }

  lemma CoveredPair(t: seq<point>, x: point, y: point, c: int)
    requires |t| % 2 == 0
    ensures Covered(t + [x, y], c) <==> Covered(t, c) || x <= c < y
  {
    var s := t + [x, y];
    if Covered(t, c) {
      var k :| InInterval(t, k, c);
      assert InInterval(s, k, c);
    }
    if x <= c < y {
      assert InInterval(s, |t| / 2, c);
    }
    if Covered(s, c) {
      var k :| InInterval(s, k, c);
      if k < |t| / 2 {
        assert InInterval(t, k, c);
      }
    }
  }

  // The sweep over two lists.

  ghost predicate Combine(op: SetOp, x: bool, y: bool) {
    match op
    case Union => x || y
    case Inter => x && y
    case Xor => x != y
  }

  /** The output means the combination of the two inputs read so far. */
  ghost predicate Swept(out: seq<point>, a: seq<point>, b: seq<point>, op: SetOp) {
    forall c: int :: Member(out, c) <==> Combine(op, Member(a, c), Member(b, c))
  }

  ghost predicate AllUpTo(s: seq<point>, v: int) {
    forall i :: 0 <= i < |s| ==> s[i] <= v
  }

  /** One point read from either list, or the same from both. */
  lemma SweepStep(out: seq<point>, a: seq<point>, b: seq<point>, op: SetOp, v: point, a': seq<point>, b': seq<point>)
    requires Swept(out, a, b, op) && AllUpTo(out, v) && AllUpTo(a, v) && AllUpTo(b, v)
    requires (a' == a + [v] && b' == b) || (a' == a && b' == b + [v]) || (a' == a + [v] && b' == b + [v])
    ensures
      var isIn := Combine(op, |a'| % 2 == 1, |b'| % 2 == 1);
      Swept(if isIn != (|out| % 2 == 1) then out + [v] else out, a', b', op)
  {
    hide Member;
    var isIn := Combine(op, |a'| % 2 == 1, |b'| % 2 == 1);
    var out' := if isIn != (|out| % 2 == 1) then out + [v] else out;
    forall c: int
      ensures Member(out', c) <==> Combine(op, Member(a', c), Member(b', c))
    {
      MemberSnoc(out, v, c);
      MemberSnoc(a, v, c);
      MemberSnoc(b, v, c);
      assert Member(out, c) <==> Combine(op, Member(a, c), Member(b, c));
    }
  }

  /** Below v a new last point changes nothing; from v on only the number of points counts. */
  lemma MemberSnoc(s: seq<point>, v: point, c: int)
    requires AllUpTo(s, v)
    ensures c < v ==> (Member(s + [v], c) <==> Member(s, c))
    ensures c >= v ==> (Member(s, c) <==> |s| % 2 == 1) && (Member(s + [v], c) <==> |s + [v]| % 2 == 1)
  {
    CountSnoc(s, v, c);
    if c >= v {
      CountAll(s, c);
    }
  }

  // Merging intervals that touch.

  /** A pair of equal points means nothing. */
  lemma PairDropped(s: seq<point>, x: point, y: point, c: int)
    requires x == y
    ensures Member(s + [x, y], c) <==> Member(s, c)
  {
    assert s + [x, y] == s + [x] + [y];
    CountSnoc(s, x, c);
    CountSnoc(s + [x], y, c);
  }

  ghost predicate SameSet(s: seq<point>, t: seq<point>) {
    forall c: int :: Member(s, c) <==> Member(t, c)
  }

  lemma SkipEmpty(out: seq<point>, s: seq<point>, i: nat)
    requires i + 1 < |s| && s[i] == s[i + 1] && SameSet(out, s[..i])
    ensures SameSet(out, s[..i + 2])
  {
    assert s[..i + 2] == s[..i] + [s[i], s[i + 1]];
    forall c: int
      ensures Member(out, c) <==> Member(s[..i + 2], c)
    {
      PairDropped(s[..i], s[i], s[i + 1], c);
      assert Member(out, c) <==> Member(s[..i], c);
    }
  }

  /** The points from i to j + 1 mean the one interval between the outermost two. */
  ghost predicate Merges(s: seq<point>, i: nat, j: nat) {
    && i <= j && j + 1 < |s| && (j - i) % 2 == 0
    && forall c: int :: Count(s[..j + 2], c) % 2 == (Count(s[..i], c) + Count([s[i], s[j + 1]], c)) % 2
  }

  lemma MergeStart(s: seq<point>, i: nat)
    requires i + 1 < |s|
    ensures Merges(s, i, i)
  {
    forall c: int
      ensures Count(s[..i + 2], c) == Count(s[..i], c) + Count([s[i], s[i + 1]], c)
    {
      assert s[..i + 2] == s[..i] + [s[i], s[i + 1]];
      CountConcat(s[..i], [s[i], s[i + 1]], c);
    }
  }

  lemma CountTwo(x: point, y: point, c: int)
    ensures Count([x, y], c) == (if x <= c then 1 else 0) + (if y <= c then 1 else 0)
  {
    assert [x, y] == [] + [x] + [y];
    CountSnoc([], x, c);
    CountSnoc([] + [x], y, c);
  }

  lemma MergeStep(s: seq<point>, i: nat, j: nat)
    requires Merges(s, i, j) && j + 3 < |s| && s[j + 1] == s[j + 2]
    ensures Merges(s, i, j + 2)
  {
    forall c: int
      ensures Count(s[..j + 4], c) % 2 == (Count(s[..i], c) + Count([s[i], s[j + 3]], c)) % 2
    {
      assert s[..j + 4] == s[..j + 2] + [s[j + 2], s[j + 3]];
      CountConcat(s[..j + 2], [s[j + 2], s[j + 3]], c);
      CountTwo(s[j + 2], s[j + 3], c);
      CountTwo(s[i], s[j + 1], c);
      CountTwo(s[i], s[j + 3], c);
      assert Count(s[..j + 2], c) % 2 == (Count(s[..i], c) + Count([s[i], s[j + 1]], c)) % 2;
    }
  }

  /** The interval at position m touches the next one. */
  ghost predicate Joint(s: seq<point>, m: nat) {
    m + 2 < |s| && s[m + 1] == s[m + 2]
  }

  lemma {:induction false} SuffixMerges(pt: seq<point>, s: seq<point>, i: nat, j: nat)
    requires |pt| == |s| && i <= j && j + 1 < |s| && (j - i) % 2 == 0 && forall m :: i <= m < |s| ==> pt[m] == s[m]
    requires forall m :: i <= m < j && (m - i) % 2 == 0 ==> Joint(pt, m)
    ensures Merges(s, i, j)
    decreases j
  {
    hide Merges;
    if i == j {
      MergeStart(s, i);
    } else {
      SuffixMerges(pt, s, i, j - 2);
      assert Joint(pt, j - 2);
      MergeStep(s, i, j - 2);
    }
  }

  /** Another interval behind the output. */
  lemma StrictPair(out: seq<point>, s: seq<point>, i: nat, j: nat)
    requires Strict(out) && Increasing(s) && i <= j && j + 1 < |s| && (out != [] ==> out[|out| - 1] < s[i])
             && s[i] != s[i + 1]
    ensures Strict(out + [s[i], s[j + 1]])
  {
    assert s[i] < s[i + 1] <= s[j + 1];
  }

  lemma MergeDone(out: seq<point>, s: seq<point>, i: nat, j: nat)
    requires Merges(s, i, j) && SameSet(out, s[..i])
    ensures SameSet(out + [s[i], s[j + 1]], s[..j + 2])
  {
    var pair, upto := [s[i], s[j + 1]], s[..j + 2];
    var joined := out + pair;
    forall c: int
      ensures Member(joined, c) <==> Member(upto, c)
    {
      CountConcat(out, pair, c);
      assert Member(out, c) <==> Member(s[..i], c);
      assert Count(s[..j + 2], c) % 2 == (Count(s[..i], c) + Count([s[i], s[j + 1]], c)) % 2;
    }
  }

  /** A set of code points. */
  class CharRange {
    var points: seq<point>

    constructor ()
      ensures points == []
    {
      points := [];
    }

    /** cr_add_point */
    method AddPoint(v: point)
      modifies this
      ensures points == old(points) + [v]
    {
      points := points + [v];
    }

    /** cr_add_interval */
    method AddInterval(c1: point, c2: point)
      modifies this
      ensures points == old(points) + [c1, c2]
    {
      points := points + [c1, c2];
    }

    /** How far the intervals from position i on touch each other. */
    method LastTouching(i: nat) returns (j: nat)
      requires i + 1 < |points|
      ensures i <= j && j + 1 < |points| && (j - i) % 2 == 0 && (j + 3 < |points| ==> points[j + 1] != points[j + 2])
      ensures forall m :: i <= m < j && (m - i) % 2 == 0 ==> Joint(points, m)
    {
      j := i;
      while j + 3 < |points| && points[j + 1] == points[j + 2]
        invariant i <= j && j + 1 < |points| && (j - i) % 2 == 0
        invariant forall m :: i <= m < j && (m - i) % 2 == 0 ==> Joint(points, m)
      {
        j := j + 2;
      }
    }

    /** cr_compress: merges consecutive intervals and removes empty ones. */
    method Compress()
      requires Proper(points)
      modifies this
      ensures Compressed(points) && SameSet(points, old(points))
    {
      hide Member, Merges, SameSet, Strict;
      ghost var s := points;
      var len := |points|;
      var i, j, k := 0, 0, 0;
      SameStart(s);
      while i + 1 < len
        invariant 0 <= k <= i <= len == |points| && i % 2 == 0 && k % 2 == 0
        invariant forall m :: i <= m < len ==> points[m] == s[m]
        invariant Strict(points[..k]) && SameSet(points[..k], s[..i])
        invariant k > 0 && i < len ==> points[k - 1] < s[i]
        decreases len - i
      {
        if points[i] == points[i + 1] {
          SkipEmpty(points[..k], s, i);
          i := i + 2;
        } else {
          j := LastTouching(i);
          SuffixMerges(points, s, i, j);
          ghost var out := points[..k];
          MergeDone(out, s, i, j);
          StrictPair(out, s, i, j);
          points := points[k := points[i]];
          points := points[k + 1 := points[j + 1]];
          assert points[..k + 2] == out + [s[i], s[j + 1]];
          k := k + 2;
          i := j + 2;
        }
      }
      assert s[..i] == s;
      points := points[..k];
    }

    /** rqsort of the intervals by their start. */
    method SortIntervals()
      requires |points| % 2 == 0
      modifies this
      ensures |points| % 2 == 0 && multiset(Pairs(points)) == multiset(Pairs(old(points))) && ByStart(Pairs(points))
    {
      var ps := PairArray(points);
      PointOrder();
      Rqsort(ps, PointCmp);
      StartsSorted(ps[..]);
      points := PointList(ps);
    }

    /** cr_sort_and_remove_overlap */
    method SortAndRemoveOverlap()
      requires |points| % 2 == 0 && Valid(Pairs(points))
      modifies this
      ensures Proper(points) && (NoneEmpty(Pairs(old(points))) ==> Compressed(points))
      ensures forall c: int :: Member(points, c) <==> Covered(old(points), c)
    {
      hide Member, Covered, Joined, SameCover, InOrder, Pairs;
      ghost var s0 := points;
      ghost var strict := NoneEmpty(Pairs(s0));
      // nothing is known about the order of the intervals yet
      SortIntervals();
      ghost var s := points;
      Reordered(s0, s);
      CoverStart(s, strict);
      var i, j := 0, 0;
      while i < |points|
        invariant 0 <= j <= i <= |points| == |s| && i % 2 == 0 && j % 2 == 0
        invariant forall m :: i <= m < |s| ==> points[m] == s[m]
        invariant InOrder(points[..j], strict) && SameCover(points[..j], s[..i])
        invariant j > 0 && i < |s| ==> points[j - 1] < s[i]
        decreases |points| - i
      {
        ghost var out := points[..j];
        PairAt(s, i);
        var start, end := points[i], points[i + 1];
        JoinStart(out, s, i);
        var i';
        i', end := JoinOverlapping(points, i + 2, start, end, s, out, strict);
        JoinDone(out, start, end, s, i');
        OrderGrows(out, start, end, strict);
        points := points[j := start];
        points := points[j + 1 := end];
        assert points[..j + 2] == out + [start, end];
        j := j + 2;
        i := i';
      }
      assert s[..i] == s;
      points := points[..j];
      CoverDone(points, s, s0, strict);
    }

    /** cr_op */
    method Op(a: seq<point>, b: seq<point>, op: SetOp)
      requires points == [] && Proper(a) && Proper(b)
      modifies this
      ensures Compressed(points)
      ensures op == Union ==> forall c: int :: Member(points, c) <==> Member(a, c) || Member(b, c)
      ensures op == Inter ==> forall c: int :: Member(points, c) <==> Member(a, c) && Member(b, c)
      ensures op == Xor ==> forall c: int :: Member(points, c) <==> Member(a, c) != Member(b, c)
    {
      hide Member, Swept, SameSet;
      var aIdx, bIdx := 0, 0;
      SweptStart(op);
      while true
        invariant 0 <= aIdx <= |a| && 0 <= bIdx <= |b|
        invariant Swept(points, a[..aIdx], b[..bIdx], op)
        invariant Increasing(points) && (|points| % 2 == 1 <==> Combine(op, aIdx % 2 == 1, bIdx % 2 == 1))
        invariant aIdx < |a| ==> AllUpTo(points, a[aIdx]) && AllUpTo(b[..bIdx], a[aIdx])
        invariant bIdx < |b| ==> AllUpTo(points, b[bIdx]) && AllUpTo(a[..aIdx], b[bIdx])
        decreases |a| - aIdx + |b| - bIdx
      {
        // the smaller of the two next points, or both if they are equal
        var v: point;
        ghost var a0, b0 := aIdx, bIdx;
        if aIdx < |a| && bIdx < |b| && a[aIdx] == b[bIdx] {
          v := a[aIdx];
          aIdx, bIdx := aIdx + 1, bIdx + 1;
        } else if aIdx < |a| && (bIdx >= |b| || a[aIdx] < b[bIdx]) {
          v := a[aIdx];
          aIdx := aIdx + 1;
        } else if bIdx < |b| {
          v := b[bIdx];
          bIdx := bIdx + 1;
        } else {
          break;
        }
        PrefixStep(a, a0, aIdx, v);
        PrefixStep(b, b0, bIdx, v);
        SweepStep(points, a[..a0], b[..b0], op, v, a[..aIdx], b[..bIdx]);
        // a point is put out where membership in the result begins or ends
        var inA, inB := aIdx % 2 == 1, bIdx % 2 == 1;
        var isIn := match op
                    case Union => inA || inB
                    case Inter => inA && inB
                    case Xor => inA != inB;
        if isIn != (|points| % 2 == 1) {
          AddPoint(v);
        }
      }
      assert a[..aIdx] == a && b[..bIdx] == b;
      ghost var out := points;
      Compress();
      CombinedSame(points, out, a, b, op);
    }

    /** cr_invert: the complement among all code points below UINT32_MAX. */
    method Invert()
      requires Proper(points)
      modifies this
      ensures Compressed(points)
      ensures forall c: int :: 0 <= c < UINT32_MAX ==> (Member(points, c) <==> !Member(old(points), c))
    {
      hide Member, SameSet;
      ghost var s := points;
      points := [0] + points + [UINT32_MAX];
      ghost var t := points;
      forall c: int | 0 <= c < UINT32_MAX
        ensures Member(t, c) <==> !Member(s, c)
      {
        Complemented(s, c);
      }
      Compress();
      SameOn(points, t);
    }
  }

  // Unsorted intervals.

  /** The intervals of an even list. */
  ghost function Pairs(s: seq<point>): (ps: seq<(point, point)>)
    ensures |ps| == |s| / 2
    ensures forall k :: 0 <= k < |ps| ==> ps[k] == (s[2 * k], s[2 * k + 1])
  {
    seq(|s| / 2, k requires 0 <= k < |s| / 2 => (s[2 * k], s[2 * k + 1]))
  }

  /** point_cmp: intervals are ordered by their start. */
  function PointCmp(p: (point, point), q: (point, point)): int {
    (if p.0 > q.0 then 1 else 0) - (if p.0 < q.0 then 1 else 0)
  }

  /** No interval ends before it starts. */
  ghost predicate Valid(ps: seq<(point, point)>) {
    forall k :: 0 <= k < |ps| ==> ps[k].0 <= ps[k].1
  }

  ghost predicate NoneEmpty(ps: seq<(point, point)>) {
    forall k :: 0 <= k < |ps| ==> ps[k].0 < ps[k].1
  }

  ghost predicate ByStart(ps: seq<(point, point)>) {
    forall k, l :: 0 <= k < l < |ps| ==> ps[k].0 <= ps[l].0
  }

  /** The intervals in another order cover the same. */
  lemma Reordered(s: seq<point>, t: seq<point>)
    requires multiset(Pairs(s)) == multiset(Pairs(t))
    ensures Valid(Pairs(s)) ==> Valid(Pairs(t))
    ensures NoneEmpty(Pairs(s)) ==> NoneEmpty(Pairs(t))
    ensures forall c: int :: Covered(s, c) <==> Covered(t, c)
  {
    var ps, qs := Pairs(s), Pairs(t);
    forall k | 0 <= k < |qs|
      ensures exists l :: 0 <= l < |ps| && ps[l] == qs[k]
    {
      assert qs[k] in multiset(qs);
      assert qs[k] in ps;
    }
    forall c: int
      ensures Covered(s, c) <==> Covered(t, c)
    {
      if Covered(s, c) {
        OtherInterval(s, t, c);
      }
      if Covered(t, c) {
        OtherInterval(t, s, c);
      }
    }
  }

  lemma OtherInterval(s: seq<point>, t: seq<point>, c: int)
    requires multiset(Pairs(s)) == multiset(Pairs(t)) && Covered(s, c)
    ensures Covered(t, c)
  {
    var ps, qs := Pairs(s), Pairs(t);
    var k :| InInterval(s, k, c);
    assert ps[k] in multiset(ps);
    assert ps[k] in qs;
    var l :| 0 <= l < |qs| && qs[l] == ps[k];
    assert InInterval(t, l, c);
  }

  /** The output and the interval at hand cover what the intervals read so far cover. */
  ghost predicate Joined(out: seq<point>, start: point, end: point, s: seq<point>, i: nat) {
    i <= |s| && forall c: int :: Covered(s[..i], c) <==> Covered(out, c) || start <= c < end
  }

  lemma JoinStart(out: seq<point>, s: seq<point>, i: nat)
    requires i + 1 < |s| && i % 2 == 0 && SameCover(out, s[..i])
    ensures Joined(out, s[i], s[i + 1], s, i + 2)
  {
    assert s[..i + 2] == s[..i] + [s[i], s[i + 1]];
    forall c: int
      ensures Covered(s[..i + 2], c) <==> Covered(out, c) || s[i] <= c < s[i + 1]
    {
      CoveredPair(s[..i], s[i], s[i + 1], c);
      assert Covered(out, c) <==> Covered(s[..i], c);
    }
  }

  lemma JoinStep(out: seq<point>, start: point, end: point, s: seq<point>, i: nat, end': point)
    requires Joined(out, start, end, s, i) && i + 1 < |s| && i % 2 == 0 && start <= s[i] <= end
    requires end' == if s[i + 1] <= end then end else s[i + 1]
    ensures Joined(out, start, end', s, i + 2)
  {
    var n := i + 2;
    assert s[..n] == s[..i] + [s[i], s[i + 1]];
    forall c: int
      ensures Covered(s[..n], c) <==> Covered(out, c) || start <= c < end'
    {
      CoveredPair(s[..i], s[i], s[i + 1], c);
      assert Covered(s[..i], c) <==> Covered(out, c) || start <= c < end;
    }
    assert Joined(out, start, end', s, n);
  }

  lemma JoinDone(out: seq<point>, start: point, end: point, s: seq<point>, i: nat)
    requires Joined(out, start, end, s, i) && |out| % 2 == 0
    ensures SameCover(out + [start, end], s[..i])
  {
    forall c: int
      ensures Covered(out + [start, end], c) <==> Covered(s[..i], c)
    {
      CoveredPair(out, start, end, c);
      assert Covered(s[..i], c) <==> Covered(out, c) || start <= c < end;
    }
  }

  ghost predicate SameCover(s: seq<point>, t: seq<point>) {
    forall c: int :: Covered(s, c) <==> Covered(t, c)
  }

  /** The output in order, strictly if no interval is empty. */
  ghost predicate InOrder(out: seq<point>, strict: bool) {
    Increasing(out) && |out| % 2 == 0 && (strict ==> Strict(out))
  }

  lemma OrderGrows(out: seq<point>, start: point, end: point, strict: bool)
    requires InOrder(out, strict) && (out != [] ==> out[|out| - 1] < start) && start <= end && (strict ==> start < end)
    ensures InOrder(out + [start, end], strict)
  {}

  lemma PairAt(s: seq<point>, i: nat)
    requires |s| % 2 == 0 && i % 2 == 0 && i < |s|
    ensures i + 1 < |s| && Pairs(s)[i / 2] == (s[i], s[i + 1])
  {}

  /** The points seen as an array of intervals. */
  method PairArray(s: seq<point>) returns (ps: array<(point, point)>)
    ensures fresh(ps) && ps[..] == Pairs(s)
  {
    ps := new (point, point)[|s| / 2](k requires 0 <= k < |s| / 2 => (s[2 * k], s[2 * k + 1]));
  }

  method PointList(ps: array<(point, point)>) returns (s: seq<point>)
    ensures |s| % 2 == 0 && Pairs(s) == ps[..]
  {
    s := [];
    var k := 0;
    while k < ps.Length
      invariant 0 <= k <= ps.Length && |s| == 2 * k && Pairs(s) == ps[..k]
    {
      PairsSnoc(s, ps[k].0, ps[k].1);
      s := s + [ps[k].0, ps[k].1];
      k := k + 1;
    }
  }

  lemma PairsSnoc(s: seq<point>, x: point, y: point)
    requires |s| % 2 == 0
    ensures Pairs(s + [x, y]) == Pairs(s) + [(x, y)]
  {}

  lemma PointOrder()
    ensures Preorder(PointCmp)
  {}

  lemma StartsSorted(ps: seq<(point, point)>)
    requires Sorted(ps, PointCmp, 0, |ps|)
    ensures ByStart(ps)
  {
    forall k, l | 0 <= k < l < |ps|
      ensures ps[k].0 <= ps[l].0
    {
      assert PointCmp(ps[k], ps[l]) <= 0;
    }
  }

  lemma CoverStart(s: seq<point>, strict: bool)
    ensures InOrder(s[..0], strict) && SameCover(s[..0], s[..0])
  {}

  lemma CoverDone(t: seq<point>, s: seq<point>, s0: seq<point>, strict: bool)
    requires InOrder(t, strict) && SameCover(t, s) && forall c: int :: Covered(s0, c) <==> Covered(s, c)
    ensures Proper(t) && (strict ==> Compressed(t))
    ensures forall c: int :: Member(t, c) <==> Covered(s0, c)
  {
    forall c: int
      ensures Member(t, c) <==> Covered(s0, c)
    {
      CoveredMember(t, c);
      assert Covered(t, c) <==> Covered(s, c);
    }
  }

  /** The loop that takes in the intervals that overlap the one at hand. */
  method JoinOverlapping(pt: seq<point>, i0: nat, start: point, end0: point, ghost s: seq<point>,
                         ghost out: seq<point>, ghost strict: bool)
    returns (i: nat, end: point)
    requires |s| == |pt| && |s| % 2 == 0 && i0 % 2 == 0 && 2 <= i0 <= |s| && forall m :: i0 <= m < |s| ==> pt[m] == s[m]
    requires Joined(out, start, end0, s, i0) && start == s[i0 - 2] <= end0
    requires ByStart(Pairs(s)) && Valid(Pairs(s)) && (strict ==> start < end0)
    ensures i0 <= i <= |s| && i % 2 == 0 && Joined(out, start, end, s, i) && start <= end && (strict ==> start < end)
    ensures i < |s| ==> s[i] > end
  {
    hide Joined, Pairs;
    i, end := i0, end0;
    while i < |pt|
      invariant i0 <= i <= |s| && i % 2 == 0 && Joined(out, start, end, s, i) && end0 <= end
    {
      PairAt(s, i0 - 2);
      PairAt(s, i);
      var start1, end1 := pt[i], pt[i + 1];
      if start1 > end {
        break;
      }
      ghost var before := end;
      if end1 > end {
        end := end1;
      }
      JoinStep(out, start, before, s, i, end);
      i := i + 2;
    }
  }

  lemma SameStart(s: seq<point>)
    ensures SameSet(s[..0], s[..0]) && Strict(s[..0])
  {}

  lemma SweptStart(op: SetOp)
    ensures Swept([], [], [], op)
  {}

  /** What one step does to the part read of a list. */
  lemma PrefixStep(a: seq<point>, i: nat, i': nat, v: point)
    requires Increasing(a) && i <= i' <= |a| && i' <= i + 1 && (i' == i + 1 ==> a[i] == v)
    ensures i' == i + 1 ==> a[..i'] == a[..i] + [v] && AllUpTo(a[..i], v)
    ensures i' == i ==> a[..i'] == a[..i]
  {}

  lemma CombinedSame(t: seq<point>, s: seq<point>, a: seq<point>, b: seq<point>, op: SetOp)
    requires SameSet(t, s) && Swept(s, a, b, op)
    ensures forall c: int :: Member(t, c) <==> Combine(op, Member(a, c), Member(b, c))
  {
    forall c: int
      ensures Member(t, c) <==> Combine(op, Member(a, c), Member(b, c))
    {
      assert Member(t, c) <==> Member(s, c);
    }
  }

  lemma Complemented(s: seq<point>, c: int)
    requires 0 <= c < UINT32_MAX
    ensures Member([0] + s + [UINT32_MAX], c) <==> !Member(s, c)
  {
    CountSnoc([0] + s, UINT32_MAX, c);
    CountConcat([0], s, c);
    assert [0][..0] == [];
    assert Count([0], c) == 1;
  }

  lemma SameOn(s: seq<point>, t: seq<point>)
    requires SameSet(s, t)
    ensures forall c: int :: Member(s, c) <==> Member(t, c)
  {}

  // The laws of the operations.

  /** The result is the one list of the operation on a and b. */
  ghost predicate Result(points: seq<point>, a: seq<point>, b: seq<point>, op: SetOp) {
    Compressed(points) && Swept(points, a, b, op)
  }

  /** Where the last interval of a list lies, in terms of its members. */
  lemma LastInterval(s: seq<point>, c: int)
    requires Compressed(s) && |s| >= 2
    ensures
      var n := |s| - 2;
      && (c >= s[n + 1] || c + 1 == s[n] ==> !Member(s, c)) && (s[n] <= c < s[n + 1] ==> Member(s, c))
      && (Member(s[..n], c) <==> c < s[n] && Member(s, c))
  {
    var n := |s| - 2;
    var t := s[..n];
    assert s == t + [s[n], s[n + 1]];
    BehindAll(t, c);
    hide Member;
    PairMembers(t, s[n], s[n + 1], c);
  }

  lemma BehindAll(t: seq<point>, c: int)
    requires |t| % 2 == 0
    ensures AllUpTo(t, c) ==> !Member(t, c)
  {
    if AllUpTo(t, c) {
      CountAll(t, c);
    }
  }

  /** A set has only one compressed list. */
  lemma {:induction false} CompressedUnique(s: seq<point>, t: seq<point>)
    requires Compressed(s) && Compressed(t) && forall c: int :: Member(s, c) <==> Member(t, c)
    ensures s == t
    decreases |s|
  {
    hide Member;
    if s == [] {
      if t != [] {
        LastInterval(t, t[|t| - 2]);
        NoMembersInEmpty(t[|t| - 2]);
      }
    } else if t == [] {
      LastInterval(s, s[|s| - 2]);
      NoMembersInEmpty(s[|s| - 2]);
    } else {
      var n, m := |s| - 2, |t| - 2;
      forall c: int
        ensures Member(s[..n], c) <==> c < s[n] && Member(s, c)
        ensures Member(t[..m], c) <==> c < t[m] && Member(t, c)
      {
        SameEnds(s, t, c);
      }
      SameEnds(s, t, s[n + 1] as int - 1);
      SameEnds(s, t, t[m + 1] as int - 1);
      SameEnds(s, t, s[n] as int - 1);
      SameEnds(s, t, t[m] as int - 1);
      CompressedUnique(s[..n], t[..m]);
      assert s == s[..n] + [s[n], s[n + 1]] && t == t[..m] + [t[m], t[m + 1]];
    }
  }

  lemma SameEnds(s: seq<point>, t: seq<point>, c: int)
    requires Compressed(s) && Compressed(t) && |s| >= 2 && |t| >= 2
    ensures
      var n, m := |s| - 2, |t| - 2;
      && (c >= s[n + 1] || c + 1 == s[n] ==> !Member(s, c)) && (s[n] <= c < s[n + 1] ==> Member(s, c))
      && (c >= t[m + 1] || c + 1 == t[m] ==> !Member(t, c)) && (t[m] <= c < t[m + 1] ==> Member(t, c))
      && (Member(s[..n], c) <==> c < s[n] && Member(s, c)) && (Member(t[..m], c) <==> c < t[m] && Member(t, c))
  {
    LastInterval(s, c);
    LastInterval(t, c);
  }

  lemma NoMembersInEmpty(c: int)
    ensures !Member([], c)
  {}

  /** The order of the two lists does not matter. */
  lemma OpCommutes(x: seq<point>, y: seq<point>, a: seq<point>, b: seq<point>, op: SetOp)
    requires Result(x, a, b, op) && Result(y, b, a, op)
    ensures x == y
  {
    CompressedUnique(x, y);
  }

  /** The symmetric difference is the union without the intersection. */
  lemma XorSplits(x: seq<point>, union: seq<point>, inter: seq<point>, rest: seq<point>, a: seq<point>, b: seq<point>)
    requires Result(x, a, b, Xor) && Result(union, a, b, Union) && Result(inter, a, b, Inter)
    requires Compressed(rest) && forall c: int :: Member(rest, c) <==> Member(union, c) && !Member(inter, c)
    ensures x == rest
  {
    CompressedUnique(x, rest);
  }

  /** Taken twice with the same list, the symmetric difference gives the first list back. */
  lemma XorUndone(x: seq<point>, y: seq<point>, a: seq<point>, b: seq<point>)
    requires Compressed(a) && Result(x, a, b, Xor) && Result(y, x, b, Xor)
    ensures y == a
  {
    CompressedUnique(y, a);
  }
}
