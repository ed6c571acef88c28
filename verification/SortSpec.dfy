/** Orders, sorted ranges and rearrangements: what the hybrid sort (cutils.c rqsort) is about. */
module SortSpec {

  /** The comparison function is a total preorder. */
  ghost predicate Preorder<T(!new)>(cmp: (T, T) -> int) {
    && (forall x: T, y: T :: cmp(x, y) < 0 <==> cmp(y, x) > 0)
    && (forall x: T, y: T, z: T :: cmp(x, y) <= 0 && cmp(y, z) <= 0 ==> cmp(x, z) <= 0)
  }

  /** The items from lo to hi are in order. */
  ghost predicate Sorted<T>(s: seq<T>, cmp: (T, T) -> int, lo: nat, hi: nat)
    requires hi <= |s|
  {
    forall i, j :: lo <= i < j < hi ==> cmp(s[i], s[j]) <= 0
  }

  /** t has the items of s, and only those from lo to hi may have moved. */
  ghost predicate Rearranged<T>(s: seq<T>, t: seq<T>, lo: nat, hi: nat) {
    && |s| == |t| && lo <= hi <= |s|
    && (forall k :: 0 <= k < |s| && !(lo <= k < hi) ==> t[k] == s[k])
    && multiset(s) == multiset(t)
  }

  /** s with the items at i and j exchanged. */
  ghost function Exchanged<T>(s: seq<T>, i: nat, j: nat): (t: seq<T>)
    requires i < |s| && j < |s|
    ensures |t| == |s| && t[i] == s[j] && t[j] == s[i]
    ensures forall k :: 0 <= k < |s| && k != i && k != j ==> t[k] == s[k]
  {
    s[i := s[j]][j := s[i]]
  }

  lemma ExchangeRearranged<T>(s: seq<T>, i: nat, j: nat, lo: nat, hi: nat)
    requires lo <= i < hi <= |s| && lo <= j < hi
    ensures Rearranged(s, Exchanged(s, i, j), lo, hi)
  {}

  lemma Unmoved<T>(s: seq<T>, lo: nat, hi: nat)
    requires lo <= hi <= |s|
    ensures Rearranged(s, s, lo, hi)
  {}

  lemma MovedTwice<T>(s: seq<T>, t: seq<T>, u: seq<T>, lo: nat, hi: nat)
    requires Rearranged(s, t, lo, hi) && Rearranged(t, u, lo, hi)
    ensures Rearranged(s, u, lo, hi)
  {}

  lemma MovedWithin<T>(s: seq<T>, t: seq<T>, lo: nat, hi: nat, lo': nat, hi': nat)
    requires Rearranged(s, t, lo, hi) && lo' <= lo && hi <= hi' <= |s|
    ensures Rearranged(s, t, lo', hi')
  {}

  lemma SameMiddle<T>(s: seq<T>, t: seq<T>, lo: nat, hi: nat)
    requires Rearranged(s, t, lo, hi)
    ensures multiset(s[lo..hi]) == multiset(t[lo..hi])
  {
    assert s[..lo] == t[..lo] && s[hi..] == t[hi..];
    InThree(s, lo, hi);
    InThree(t, lo, hi);
    CancelMultisets(multiset(s[..lo]), multiset(s[lo..hi]), multiset(t[lo..hi]), multiset(s[hi..]));
  }

  lemma InThree<T>(s: seq<T>, lo: nat, hi: nat)
    requires lo <= hi <= |s|
    ensures multiset(s) == multiset(s[..lo]) + multiset(s[lo..hi]) + multiset(s[hi..])
  {
    assert s == s[..lo] + s[lo..hi] + s[hi..];
  }

  lemma CancelMultisets<T>(a: multiset<T>, x: multiset<T>, y: multiset<T>, b: multiset<T>)
    requires a + x + b == a + y + b
    ensures x == y
  {
    assert x == (a + x + b) - a - b;
    assert y == (a + y + b) - a - b;
  }

  /** Every item of the range was in the range before. */
  lemma CameFrom<T>(s: seq<T>, t: seq<T>, lo: nat, hi: nat, k: nat) returns (i: nat)
    requires Rearranged(s, t, lo, hi) && lo <= k < hi
    ensures lo <= i < hi && s[i] == t[k]
  {
    SameMiddle(s, t, lo, hi);
    assert t[lo..hi][k - lo] == t[k];
    assert t[k] in multiset(t[lo..hi]);
    var m :| 0 <= m < hi - lo && s[lo..hi][m] == t[k];
    i := lo + m;
  }

  // Sorting in pieces.

  /** Part of the array: the items from lo to hi. */
  datatype Piece = Piece(lo: nat, hi: nat)

  ghost predicate In(p: Piece, i: int) {
    p.lo <= i < p.hi
  }

  /** Both positions are in one piece that is still to be sorted. */
  ghost predicate Together(pieces: seq<Piece>, i: int, j: int) {
    exists k :: 0 <= k < |pieces| && In(pieces[k], i) && In(pieces[k], j)
  }

  ghost predicate Apart(p: Piece, q: Piece) {
    p.hi <= q.lo || q.hi <= p.lo
  }

  ghost predicate Disjoint(pieces: seq<Piece>, n: nat) {
    && (forall k :: 0 <= k < |pieces| ==> pieces[k].lo <= pieces[k].hi <= n)
    && (forall k, l :: 0 <= k < l < |pieces| ==> Apart(pieces[k], pieces[l]))
  }

  /** All that is not in order yet is inside a piece. */
  ghost predicate SortedBut<T>(s: seq<T>, cmp: (T, T) -> int, pieces: seq<Piece>) {
    forall i, j :: 0 <= i < j < |s| ==> Together(pieces, i, j) || cmp(s[i], s[j]) <= 0
  }

  lemma WholePiece<T>(s: seq<T>, cmp: (T, T) -> int)
    ensures var whole := [Piece(0, |s|)]; Disjoint(whole, |s|) && SortedBut(s, cmp, whole)
  {
    var whole := [Piece(0, |s|)];
    assert In(whole[0], 0) || |s| == 0;
    forall i, j | 0 <= i < j < |s|
      ensures Together(whole, i, j)
    {
      assert In(whole[0], i) && In(whole[0], j);
    }
  }

  lemma NothingLeft<T>(s: seq<T>, cmp: (T, T) -> int)
    requires SortedBut(s, cmp, [])
    ensures Sorted(s, cmp, 0, |s|)
  {
    forall i, j | 0 <= i < j < |s|
      ensures cmp(s[i], s[j]) <= 0
    {
      assert !Together([], i, j);
    }
  }

  /** Only the last piece can hold two positions one of which is in it. */
  lemma InLast(pieces: seq<Piece>, p: Piece, n: nat, i: int, j: int)
    requires Disjoint(pieces + [p], n) && In(p, i)
    ensures Together(pieces + [p], i, j) <==> In(p, j)
  {
    var all := pieces + [p];
    assert all[|pieces|] == p;
    forall k | 0 <= k < |pieces|
      ensures !In(all[k], i)
    {
      assert Apart(all[k], all[|pieces|]);
    }
  }

  lemma NotInLast(pieces: seq<Piece>, p: Piece, i: int, j: int)
    requires Together(pieces + [p], i, j) && !In(p, i)
    ensures Together(pieces, i, j)
  {
    var all := pieces + [p];
    var k :| 0 <= k < |all| && In(all[k], i) && In(all[k], j);
    assert all[k] == pieces[k];
  }

  lemma More(pieces: seq<Piece>, more: seq<Piece>, i: int, j: int)
    requires Together(pieces, i, j)
    ensures Together(pieces + more, i, j)
  {
    var k :| 0 <= k < |pieces| && In(pieces[k], i) && In(pieces[k], j);
    assert (pieces + more)[k] == pieces[k];
  }

  /** Moving items inside the last piece leaves them on the right side of all others. */
  lemma LastRearranged<T>(s: seq<T>, t: seq<T>, cmp: (T, T) -> int, pieces: seq<Piece>, p: Piece)
    requires Disjoint(pieces + [p], |s|) && SortedBut(s, cmp, pieces + [p]) && p.lo <= p.hi
             && Rearranged(s, t, p.lo, p.hi)
    ensures SortedBut(t, cmp, pieces + [p])
  {
    var all := pieces + [p];
    forall i, j | 0 <= i < j < |t|
      ensures Together(all, i, j) || cmp(t[i], t[j]) <= 0
    {
      if In(p, i) && In(p, j) {
        InLast(pieces, p, |s|, i, j);
      } else if In(p, i) {
        var k := CameFrom(s, t, p.lo, p.hi, i);
        InLast(pieces, p, |s|, k, j);
        assert k < j && t[j] == s[j];
        assert Together(all, k, j) || cmp(s[k], s[j]) <= 0;
      } else if In(p, j) {
        var k := CameFrom(s, t, p.lo, p.hi, j);
        InLastSwap(pieces, p, |s|, i, k);
        assert i < k && t[i] == s[i];
        assert Together(all, i, k) || cmp(s[i], s[k]) <= 0;
      } else {
        assert t[i] == s[i] && t[j] == s[j];
        assert Together(all, i, j) || cmp(s[i], s[j]) <= 0;
      }
    }
  }

  lemma InLastSwap(pieces: seq<Piece>, p: Piece, n: nat, i: int, j: int)
    requires Disjoint(pieces + [p], n) && In(p, j) && !In(p, i)
    ensures !Together(pieces + [p], i, j)
  {
    InLast(pieces, p, n, j, i);
    if Together(pieces + [p], i, j) {
      TogetherSwap(pieces + [p], i, j);
    }
  }

  lemma TogetherSwap(pieces: seq<Piece>, i: int, j: int)
    requires Together(pieces, i, j)
    ensures Together(pieces, j, i)
  {}

  /** A piece that has been sorted is done. */
  lemma LastSorted<T>(s: seq<T>, cmp: (T, T) -> int, pieces: seq<Piece>, p: Piece)
    requires Disjoint(pieces + [p], |s|) && SortedBut(s, cmp, pieces + [p]) && p.hi <= |s| && Sorted(s, cmp, p.lo, p.hi)
    ensures Disjoint(pieces, |s|) && SortedBut(s, cmp, pieces)
  {
    var all := pieces + [p];
    assert forall k :: 0 <= k < |pieces| ==> all[k] == pieces[k];
    forall i, j | 0 <= i < j < |s|
      ensures Together(pieces, i, j) || cmp(s[i], s[j]) <= 0
    {
      assert Together(all, i, j) || cmp(s[i], s[j]) <= 0;
      if In(p, i) {
        InLast(pieces, p, |s|, i, j);
      } else if Together(all, i, j) {
        NotInLast(pieces, p, i, j);
      }
    }
  }

  /** The items from lo to hi compare with the pivot like the sign says. */
  ghost predicate Compares<T>(s: seq<T>, cmp: (T, T) -> int, v: T, lo: nat, hi: nat, sign: int) {
    hi <= |s| && forall k :: lo <= k < hi ==> Sign(cmp(v, s[k])) == sign
  }

  function Sign(c: int): int {
    if c < 0 then -1 else if c > 0 then 1 else 0
  }

  /** Smaller items, then those equal to the pivot, then larger ones. */
  ghost predicate Partitioned<T>(s: seq<T>, cmp: (T, T) -> int, v: T, p: Piece, lt: nat, gt: nat) {
    && p.lo <= lt < gt <= p.hi && Compares(s, cmp, v, p.lo, lt, 1) && Compares(s, cmp, v, lt, gt, 0)
      && Compares(s, cmp, v, gt, p.hi, -1)
  }

  lemma PartsInOrder<T(!new)>(s: seq<T>, cmp: (T, T) -> int, v: T, p: Piece, lt: nat, gt: nat, i: nat, j: nat)
    requires Preorder(cmp) && Partitioned(s, cmp, v, p, lt, gt) && p.lo <= i < j < p.hi && p.hi <= |s|
    requires !(j < lt) && !(gt <= i)
    ensures cmp(s[i], s[j]) <= 0
  {
    assert Sign(cmp(v, s[i])) == if i < lt then 1 else 0;
    assert Sign(cmp(v, s[j])) == if j < gt then 0 else -1;
    assert cmp(s[i], v) <= 0 && cmp(v, s[j]) <= 0;
  }

  /** A partition makes two pieces of one, in either order. */
  lemma LastPartitioned<T(!new)>(s: seq<T>, cmp: (T, T) -> int, pieces: seq<Piece>, p: Piece, v: T, lt: nat, gt: nat,
                                 q: Piece, r: Piece)
    requires Preorder(cmp) && Disjoint(pieces + [p], |s|) && SortedBut(s, cmp, pieces + [p])
             && Partitioned(s, cmp, v, p, lt, gt)
    requires (q == Piece(p.lo, lt) && r == Piece(gt, p.hi)) || (r == Piece(p.lo, lt) && q == Piece(gt, p.hi))
    ensures Disjoint(pieces + [q] + [r], |s|) && SortedBut(s, cmp, pieces + [q] + [r])
  {
    var all, new_ := pieces + [p], pieces + [q] + [r];
    StillDisjoint(pieces, p, |s|, lt, gt, q, r);
    assert new_ == pieces + [q, r];
    forall i, j | 0 <= i < j < |s|
      ensures Together(new_, i, j) || cmp(s[i], s[j]) <= 0
    {
      assert Together(all, i, j) || cmp(s[i], s[j]) <= 0;
      if Together(all, i, j) {
        if !In(p, i) {
          NotInLast(pieces, p, i, j);
          More(pieces, [q, r], i, j);
        } else {
          InLast(pieces, p, |s|, i, j);
          assert all[|pieces|] == p;
          assert new_[|pieces|] == q && new_[|pieces| + 1] == r;
          if j < lt || gt <= i {
            assert (In(q, i) && In(q, j)) || (In(r, i) && In(r, j));
          } else {
            PartsInOrder(s, cmp, v, p, lt, gt, i, j);
          }
        }
      }
    }
  }

  lemma StillDisjoint(pieces: seq<Piece>, p: Piece, n: nat, lt: nat, gt: nat, q: Piece, r: Piece)
    requires Disjoint(pieces + [p], n) && p.lo <= lt < gt <= p.hi
    requires (q == Piece(p.lo, lt) && r == Piece(gt, p.hi)) || (r == Piece(p.lo, lt) && q == Piece(gt, p.hi))
    ensures Disjoint(pieces + [q] + [r], n)
  {
    var all, new_ := pieces + [p], pieces + [q] + [r];
    assert all[|pieces|] == p;
    forall k, l | 0 <= k < l < |new_|
      ensures Apart(new_[k], new_[l])
    {
      if l < |pieces| {
        assert Apart(all[k], all[l]);
      } else if k < |pieces| {
        assert Apart(all[k], all[|pieces|]);
      }
    }
    forall k | 0 <= k < |new_|
      ensures new_[k].lo <= new_[k].hi <= n
    {
      if k < |pieces| {
        assert all[k] == new_[k];
      }
    }
  }
}
