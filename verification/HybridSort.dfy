/** The hybrid sort (cutils.c): insertion sort, heap sort, and rqsort with its three-way partition and its fixed
    stack. A position stands for the byte pointer divided by the size of an item. */
module HybridSort {
  import opened SortSpec

  method Swap<T>(a: array<T>, i: nat, j: nat)
    requires i < a.Length && j < a.Length
    modifies a
    ensures a[..] == Exchanged(old(a[..]), i, j)
  {
    a[i], a[j] := a[j], a[i];
  }

  lemma MoveStep<T>(s0: seq<T>, s: seq<T>, i: nat, j: nat, lo: nat, hi: nat)
    requires Rearranged(s0, s, lo, hi) && lo <= i < hi && lo <= j < hi
    ensures i < |s| && j < |s| && Rearranged(s0, Exchanged(s, i, j), lo, hi)
  {
    ExchangeRearranged(s, i, j, lo, hi);
    MovedTwice(s0, s, Exchanged(s, i, j), lo, hi);
  }

  // Insertion sort.

  /** In order up to position hi, but for the item at pj, which is only known to be smaller than those behind it. */
  ghost predicate Inserting<T>(s: seq<T>, cmp: (T, T) -> int, lo: nat, hi: nat, pj: nat)
    requires hi < |s|
  {
    lo <= pj <= hi && forall i, j :: lo <= i < j <= hi && j != pj ==> cmp(s[i], s[j]) <= 0
  }

  lemma InsertStart<T>(s: seq<T>, cmp: (T, T) -> int, lo: nat, hi: nat)
    requires lo <= hi < |s| && Sorted(s, cmp, lo, hi)
    ensures Inserting(s, cmp, lo, hi, hi)
  {}

  lemma InsertStep<T(!new)>(s: seq<T>, cmp: (T, T) -> int, lo: nat, hi: nat, pj: nat)
    requires Preorder(cmp) && hi < |s| && Inserting(s, cmp, lo, hi, pj) && pj > lo && cmp(s[pj - 1], s[pj]) > 0
    ensures Inserting(Exchanged(s, pj, pj - 1), cmp, lo, hi, pj - 1)
  {
    var t := Exchanged(s, pj, pj - 1);
    forall i, j | lo <= i < j <= hi && j != pj - 1
      ensures cmp(t[i], t[j]) <= 0
    {
      var i', j' := Before(pj, i), Before(pj, j);
      assert t[i] == s[i'] && t[j] == s[j'];
      if i == pj - 1 && j == pj {
        assert cmp(s[pj], s[pj - 1]) < 0;
      } else {
        assert (i' < j' && j' != pj) || (i' == pj && j' > pj) || j' == pj - 1;
      }
    }
  }

  ghost function Before(pj: nat, i: nat): nat
    requires pj > 0
  {
    if i == pj then pj - 1 else if i == pj - 1 then pj else i
  }

  lemma InsertDone<T(!new)>(s: seq<T>, cmp: (T, T) -> int, lo: nat, hi: nat, pj: nat)
    requires Preorder(cmp) && hi < |s| && Inserting(s, cmp, lo, hi, pj) && (pj > lo ==> cmp(s[pj - 1], s[pj]) <= 0)
    ensures Sorted(s, cmp, lo, hi + 1)
  {
    forall i, j | lo <= i < j < hi + 1
      ensures cmp(s[i], s[j]) <= 0
    {
      if j == pj && i < pj - 1 {
        assert cmp(s[i], s[pj - 1]) <= 0;
      }
    }
  }

  /** The insertion sort at the end of rqsort. */
  method InsertionSort<T(!new)>(a: array<T>, cmp: (T, T) -> int, ptr: nat, nmemb: nat)
    requires Preorder(cmp) && ptr + nmemb <= a.Length
    modifies a
    ensures Rearranged(old(a[..]), a[..], ptr, ptr + nmemb) && Sorted(a[..], cmp, ptr, ptr + nmemb)
  {
    hide Preorder, Rearranged, Sorted, Inserting, Exchanged;
    ghost var s0 := a[..];
    var pi, top := ptr + 1, ptr + nmemb;
    Unmoved(a[..], ptr, top);
    FewSorted(a[..], cmp, ptr, if nmemb == 0 then ptr else ptr + 1);
    while pi < top
      invariant ptr < pi && (pi <= top || nmemb == 0)
      invariant Rearranged(s0, a[..], ptr, top)
      invariant Sorted(a[..], cmp, ptr, if nmemb == 0 then ptr else pi)
    {
      var pj := pi;
      InsertStart(a[..], cmp, ptr, pi);
      PositionRange(a[..], cmp, ptr, pi, pj);
      while pj > ptr && cmp(a[pj - 1], a[pj]) > 0
        invariant ptr <= pj <= pi && Inserting(a[..], cmp, ptr, pi, pj)
        invariant Rearranged(s0, a[..], ptr, top)
        decreases pj
      {
        InsertStep(a[..], cmp, ptr, pi, pj);
        MoveStep(s0, a[..], pj, pj - 1, ptr, top);
        Swap(a, pj, pj - 1);
        pj := pj - 1;
      }
      InsertDone(a[..], cmp, ptr, pi, pj);
      pi := pi + 1;
    }
  }

  lemma FewSorted<T>(s: seq<T>, cmp: (T, T) -> int, lo: nat, hi: nat)
    requires lo <= hi <= lo + 1 && hi <= |s|
    ensures Sorted(s, cmp, lo, hi)
  {}

  lemma PositionRange<T>(s: seq<T>, cmp: (T, T) -> int, lo: nat, hi: nat, pj: nat)
    requires hi < |s| && Inserting(s, cmp, lo, hi, pj)
    ensures lo <= pj <= hi
  {}

  // Heap sort. The heap has its root at b; positions in it count from there.

  function Parent(c: nat): nat
    requires c > 0
  {
    (c - 1) / 2
  }

  /** No item from position lo on is smaller than its children, except perhaps the one at r, whose children are
      not larger than its parent either. */
  ghost predicate HeapExcept<T>(s: seq<T>, cmp: (T, T) -> int, b: nat, lo: nat, n: nat, r: nat)
    requires b + n <= |s|
  {
    && (forall c :: 0 < c < n && Parent(c) >= lo && Parent(c) != r ==> cmp(s[b + Parent(c)], s[b + c]) >= 0)
    && (forall c :: 0 < c < n && Parent(c) == r && r > 0 && Parent(r) >= lo ==> cmp(s[b + Parent(r)], s[b + c]) >= 0)
  }

  ghost predicate Heap<T>(s: seq<T>, cmp: (T, T) -> int, b: nat, lo: nat, n: nat)
    requires b + n <= |s|
  {
    forall c :: 0 < c < n && Parent(c) >= lo ==> cmp(s[b + Parent(c)], s[b + c]) >= 0
  }

  lemma HeapStart<T>(s: seq<T>, cmp: (T, T) -> int, b: nat, i: nat, n: nat)
    requires b + n <= |s| && Heap(s, cmp, b, i + 1, n)
    ensures HeapExcept(s, cmp, b, i, n, i)
  {}

  lemma HeapStep<T(!new)>(s: seq<T>, cmp: (T, T) -> int, b: nat, lo: nat, n: nat, r: nat, c: nat)
    requires Preorder(cmp) && b + n <= |s| && HeapExcept(s, cmp, b, lo, n, r) && lo <= r < c < n && Parent(c) == r
    requires forall d :: 0 < d < n && Parent(d) == r ==> cmp(s[b + d], s[b + c]) <= 0
    requires cmp(s[b + r], s[b + c]) <= 0
    ensures HeapExcept(Exchanged(s, b + r, b + c), cmp, b, lo, n, c)
  {
    var t := Exchanged(s, b + r, b + c);
    forall d | 0 < d < n && Parent(d) >= lo && Parent(d) != c
      ensures cmp(t[b + Parent(d)], t[b + d]) >= 0
    {
      assert cmp(s[b + d], s[b + c]) <= 0 || Parent(d) != r;
      if d == r {
        assert cmp(s[b + Parent(r)], s[b + c]) >= 0;
      }
    }
    forall d | 0 < d < n && Parent(d) == c
      ensures cmp(t[b + r], t[b + d]) >= 0
    {
      assert cmp(s[b + Parent(d)], s[b + d]) >= 0;
    }
  }

  lemma HeapDone<T(!new)>(s: seq<T>, cmp: (T, T) -> int, b: nat, lo: nat, n: nat, r: nat)
    requires Preorder(cmp) && b + n <= |s| && HeapExcept(s, cmp, b, lo, n, r)
    requires forall d :: 0 < d < n && Parent(d) == r ==> cmp(s[b + r], s[b + d]) >= 0
    ensures Heap(s, cmp, b, lo, n)
  {}

  /** The loop that lets the item at i sink. */
  method SiftDown<T(!new)>(a: array<T>, cmp: (T, T) -> int, b: nat, i: nat, n: nat)
    requires Preorder(cmp) && b + n <= a.Length && i < n && Heap(a[..], cmp, b, i + 1, n)
    modifies a
    ensures Rearranged(old(a[..]), a[..], b, b + n) && Heap(a[..], cmp, b, i, n)
  {
    hide Preorder, Rearranged, Heap, HeapExcept, Exchanged;
    ghost var s0 := a[..];
    Unmoved(s0, b, b + n);
    HeapStart(s0, cmp, b, i, n);
    var r := i;
    while true
      invariant i <= r < n && HeapExcept(a[..], cmp, b, i, n, r) && Rearranged(s0, a[..], b, b + n)
      decreases n - r
    {
      var c := r * 2 + 1;
      if c >= n {
        HeapDone(a[..], cmp, b, i, n, r);
        return;
      }
      if c < n - 1 && cmp(a[b + c], a[b + c + 1]) <= 0 {
        c := c + 1;
      }
      LargerChild(a[..], cmp, b, n, r, c);
      if cmp(a[b + r], a[b + c]) > 0 {
        SinkEnds(a[..], cmp, b, n, r, c);
        HeapDone(a[..], cmp, b, i, n, r);
        return;
      }
      HeapStep(a[..], cmp, b, i, n, r, c);
      MoveStep(s0, a[..], b + r, b + c, b, b + n);
      Swap(a, b + r, b + c);
      r := c;
    }
  }

  lemma LargerChild<T(!new)>(s: seq<T>, cmp: (T, T) -> int, b: nat, n: nat, r: nat, c: nat)
    requires Preorder(cmp) && b + n <= |s| && c < n
    requires (c == 2 * r + 1 && (c < n - 1 ==> cmp(s[b + c], s[b + c + 1]) > 0))
             || (c == 2 * r + 2 && cmp(s[b + c - 1], s[b + c]) <= 0)
    ensures Parent(c) == r && forall d :: 0 < d < n && Parent(d) == r ==> cmp(s[b + d], s[b + c]) <= 0
  {
    forall d | 0 < d < n && Parent(d) == r
      ensures cmp(s[b + d], s[b + c]) <= 0
    {
      assert d == 2 * r + 1 || d == 2 * r + 2;
    }
  }

  lemma SinkEnds<T(!new)>(s: seq<T>, cmp: (T, T) -> int, b: nat, n: nat, r: nat, c: nat)
    requires Preorder(cmp) && b + n <= |s| && r < n && c < n && cmp(s[b + r], s[b + c]) > 0
    requires forall d :: 0 < d < n && Parent(d) == r ==> cmp(s[b + d], s[b + c]) <= 0
    ensures forall d :: 0 < d < n && Parent(d) == r ==> cmp(s[b + r], s[b + d]) >= 0
  {
    forall d | 0 < d < n && Parent(d) == r
      ensures cmp(s[b + r], s[b + d]) >= 0
    {
      assert cmp(s[b + d], s[b + c]) <= 0 && cmp(s[b + c], s[b + r]) <= 0;
    }
  }

  lemma {:induction false} RootLargest<T(!new)>(s: seq<T>, cmp: (T, T) -> int, b: nat, n: nat, k: nat)
    requires Preorder(cmp) && b + n <= |s| && Heap(s, cmp, b, 0, n) && k < n
    ensures cmp(s[b + k], s[b]) <= 0
    decreases k
  {
    if k > 0 {
      RootLargest(s, cmp, b, n, Parent(k));
      assert cmp(s[b + Parent(k)], s[b + k]) >= 0;
    }
  }

  /** The largest items are in place from i on. */
  ghost predicate TailSorted<T>(s: seq<T>, cmp: (T, T) -> int, b: nat, i: nat, n: nat)
    requires b + n <= |s|
  {
    forall j, k :: b <= j < k < b + n && b + i <= k ==> cmp(s[j], s[k]) <= 0
  }

  lemma TailGrows<T(!new)>(s: seq<T>, cmp: (T, T) -> int, b: nat, i: nat, n: nat)
    requires Preorder(cmp) && b + n <= |s| && 0 < i < n && TailSorted(s, cmp, b, i + 1, n) && Heap(s, cmp, b, 0, i + 1)
    ensures TailSorted(Exchanged(s, b, b + i), cmp, b, i, n)
  {
    var t := Exchanged(s, b, b + i);
    forall j, k | b <= j < k < b + n && b + i <= k
      ensures cmp(t[j], t[k]) <= 0
    {
      if k == b + i {
        RootLargest(s, cmp, b, i + 1, if j == b then i else j - b);
      } else {
        assert t[j] == s[if j == b then b + i else if j == b + i then b else j];
        assert t[k] == s[k];
      }
    }
  }

  lemma HeapShrinks<T>(s: seq<T>, cmp: (T, T) -> int, b: nat, i: nat)
    requires 0 < i && b + i < |s| && Heap(s, cmp, b, 0, i + 1)
    ensures Heap(Exchanged(s, b, b + i), cmp, b, 1, i)
  {
    var t := Exchanged(s, b, b + i);
    forall c | 0 < c < i && Parent(c) >= 1
      ensures cmp(t[b + Parent(c)], t[b + c]) >= 0
    {
      assert cmp(s[b + Parent(c)], s[b + c]) >= 0;
    }
  }

  lemma TailKept<T(!new)>(s: seq<T>, t: seq<T>, cmp: (T, T) -> int, b: nat, i: nat, n: nat)
    requires b + n <= |s| && i <= n && TailSorted(s, cmp, b, i, n) && Rearranged(s, t, b, b + i)
    ensures TailSorted(t, cmp, b, i, n)
  {
    forall j, k | b <= j < k < b + n && b + i <= k
      ensures cmp(t[j], t[k]) <= 0
    {
      if j < b + i {
        var j' := CameFrom(s, t, b, b + i, j);
      }
    }
  }

  /** heapsortx */
  method HeapSort<T(!new)>(a: array<T>, cmp: (T, T) -> int, b: nat, nmemb: nat)
    requires Preorder(cmp) && b + nmemb <= a.Length
    modifies a
    ensures Rearranged(old(a[..]), a[..], b, b + nmemb) && Sorted(a[..], cmp, b, b + nmemb)
  {
    hide Preorder, Rearranged, Sorted, Heap, Exchanged, TailSorted;
    ghost var s0 := a[..];
    var n := nmemb;
    Unmoved(s0, b, b + n);
    if n > 1 {
      var i := n / 2;
      Leaves(a[..], cmp, b, n);
      while i > 0
        invariant 0 <= i <= n / 2 && Heap(a[..], cmp, b, i, n) && Rearranged(s0, a[..], b, b + n)
      {
        i := i - 1;
        ghost var s1 := a[..];
        SiftDown(a, cmp, b, i, n);
        MovedTwice(s0, s1, a[..], b, b + n);
      }
      i := n - 1;
      NoTail(a[..], cmp, b, n);
      while i > 0
        invariant 0 <= i < n && Heap(a[..], cmp, b, 0, i + 1) && Rearranged(s0, a[..], b, b + n)
        invariant TailSorted(a[..], cmp, b, i + 1, n)
      {
        TailGrows(a[..], cmp, b, i, n);
        HeapShrinks(a[..], cmp, b, i);
        MoveStep(s0, a[..], b, b + i, b, b + n);
        Swap(a, b, b + i);
        ghost var s1 := a[..];
        SiftDown(a, cmp, b, 0, i);
        MovedWithin(s1, a[..], b, b + i, b, b + n);
        MovedTwice(s0, s1, a[..], b, b + n);
        TailKept(s1, a[..], cmp, b, i, n);
        i := i - 1;
      }
      AllTail(a[..], cmp, b, n);
    } else {
      FewSorted(a[..], cmp, b, b + n);
    }
  }

  lemma Leaves<T>(s: seq<T>, cmp: (T, T) -> int, b: nat, n: nat)
    requires b + n <= |s|
    ensures Heap(s, cmp, b, n / 2, n)
  {
    assert forall c :: 0 < c < n ==> Parent(c) < n / 2;
  }

  lemma NoTail<T>(s: seq<T>, cmp: (T, T) -> int, b: nat, n: nat)
    requires b + n <= |s|
    ensures TailSorted(s, cmp, b, n, n)
  {}

  lemma AllTail<T>(s: seq<T>, cmp: (T, T) -> int, b: nat, n: nat)
    requires b + n <= |s| && TailSorted(s, cmp, b, 1, n)
    ensures Sorted(s, cmp, b, b + n)
  {}

  // The partition.

  /** y is between x and z. */
  ghost predicate Middle<T>(cmp: (T, T) -> int, x: T, y: T, z: T) {
    (cmp(x, y) <= 0 && cmp(y, z) <= 0) || (cmp(z, y) <= 0 && cmp(y, x) <= 0)
  }

  /** med3: the position of the median. */
  method Median<T(!new)>(a: array<T>, cmp: (T, T) -> int, i: nat, j: nat, k: nat) returns (m: nat)
    requires Preorder(cmp) && i < a.Length && j < a.Length && k < a.Length
    ensures m == i || m == j || m == k
    ensures m == i ==> Middle(cmp, a[j], a[i], a[k])
    ensures m == j ==> Middle(cmp, a[i], a[j], a[k])
    ensures m == k ==> Middle(cmp, a[i], a[k], a[j])
  {
    if cmp(a[i], a[j]) < 0 {
      m := if cmp(a[j], a[k]) < 0 then j else if cmp(a[i], a[k]) < 0 then k else i;
    } else {
      m := if cmp(a[j], a[k]) > 0 then j else if cmp(a[i], a[k]) < 0 then i else k;
    }
  }

  /** Items equal to the pivot up to lt, and smaller ones from there to pi. */
  ghost predicate Low<T>(s: seq<T>, cmp: (T, T) -> int, v: T, ptr: nat, plt: nat, pi: nat) {
    ptr <= plt <= pi && Compares(s, cmp, v, ptr, plt, 0) && Compares(s, cmp, v, plt, pi, 1)
  }

  /** Larger items from pj on, and items equal to the pivot from pgt to the top. */
  ghost predicate High<T>(s: seq<T>, cmp: (T, T) -> int, v: T, pj: nat, pgt: nat, top: nat) {
    pj <= pgt <= top && Compares(s, cmp, v, pj, pgt, -1) && Compares(s, cmp, v, pgt, top, 0)
  }

  lemma LowStep<T>(s: seq<T>, cmp: (T, T) -> int, v: T, ptr: nat, plt: nat, pi: nat)
    requires Low(s, cmp, v, ptr, plt, pi) && pi < |s|
    ensures cmp(v, s[pi]) == 0 ==> Low(Exchanged(s, plt, pi), cmp, v, ptr, plt + 1, pi + 1)
    ensures cmp(v, s[pi]) > 0 ==> Low(s, cmp, v, ptr, plt, pi + 1)
  {}

  lemma HighStep<T>(s: seq<T>, cmp: (T, T) -> int, v: T, pj: nat, pgt: nat, top: nat)
    requires High(s, cmp, v, pj + 1, pgt, top) && pj < |s|
    ensures cmp(v, s[pj]) == 0 ==> High(Exchanged(s, pgt - 1, pj), cmp, v, pj, pgt - 1, top)
    ensures cmp(v, s[pj]) < 0 ==> High(s, cmp, v, pj, pgt, top)
  {}

  lemma LowKept<T>(s: seq<T>, t: seq<T>, cmp: (T, T) -> int, v: T, ptr: nat, plt: nat, pi: nat, hi: nat)
    requires Low(s, cmp, v, ptr, plt, pi) && Rearranged(s, t, pi, hi)
    ensures Low(t, cmp, v, ptr, plt, pi)
  {}

  lemma HighKept<T>(s: seq<T>, t: seq<T>, cmp: (T, T) -> int, v: T, pj: nat, pgt: nat, top: nat, lo: nat)
    requires High(s, cmp, v, pj, pgt, top) && Rearranged(s, t, lo, pj)
    ensures High(t, cmp, v, pj, pgt, top)
  {}

  /** The loop that moves pi up. */
  method ScanUp<T(!new)>(a: array<T>, cmp: (T, T) -> int, ghost v: T, ptr: nat, plt0: nat, pi0: nat, pj: nat)
    returns (plt: nat, pi: nat)
    requires ptr < plt0 <= pi0 <= pj <= a.Length && Low(a[..], cmp, v, ptr, plt0, pi0) && a[ptr] == v
    modifies a
    ensures ptr < plt <= pi && pi0 <= pi <= pj && Low(a[..], cmp, v, ptr, plt, pi) && a[ptr] == v
            && (pi < pj ==> cmp(v, a[pi]) < 0)
    ensures Rearranged(old(a[..]), a[..], plt0, pj)
  {
    hide Low, Rearranged, Exchanged;
    ghost var s0 := a[..];
    plt, pi := plt0, pi0;
    Unmoved(s0, plt0, pj);
    while pi < pj && cmp(a[ptr], a[pi]) >= 0
      invariant plt0 <= plt <= pi && pi0 <= pi <= pj && Low(a[..], cmp, v, ptr, plt, pi) && a[ptr] == v
      invariant Rearranged(s0, a[..], plt0, pj)
    {
      LowStep(a[..], cmp, v, ptr, plt, pi);
      if cmp(a[ptr], a[pi]) == 0 {
        MoveStep(s0, a[..], plt, pi, plt0, pj);
        Swap(a, plt, pi);
        plt := plt + 1;
      }
      pi := pi + 1;
    }
  }

  /** The loop that moves pj down. */
  method ScanDown<T(!new)>(a: array<T>, cmp: (T, T) -> int, ghost v: T, ptr: nat, pi: nat, pj0: nat, pgt0: nat,
                           top: nat)
    returns (pj: int, pgt: nat)
    requires ptr < pi <= pj0 <= pgt0 <= top <= a.Length && High(a[..], cmp, v, pj0, pgt0, top) && a[ptr] == v
    requires pi < pj0 ==> cmp(v, a[pi]) < 0
    modifies a
    ensures -1 <= pj < pj0 && pj < pgt <= top && a[ptr] == v && Rearranged(old(a[..]), a[..], pi, top)
    ensures if pi < pj then High(a[..], cmp, v, pj + 1, pgt, top) && cmp(v, a[pi]) < 0 && cmp(v, a[pj]) > 0
      else High(a[..], cmp, v, pi, pgt, top)
  {
    hide High, Rearranged, Exchanged;
    ghost var s0 := a[..];
    pj, pgt := pj0 - 1, pgt0;
    Unmoved(s0, pi, top);
    while pi < pj && cmp(a[ptr], a[pj]) <= 0
      invariant pi - 1 <= pj < pj0 && (pi < pj0 ==> pi <= pj && cmp(v, a[pi]) < 0)
      invariant pj < pgt <= top && High(a[..], cmp, v, pj + 1, pgt, top) && a[ptr] == v
      invariant Rearranged(s0, a[..], pi, top)
    {
      HighStep(a[..], cmp, v, pj, pgt, top);
      HighRange(a[..], cmp, v, pj + 1, pgt, top);
      if cmp(a[ptr], a[pj]) == 0 {
        pgt := pgt - 1;
        MoveStep(s0, a[..], pgt, pj, pi, top);
        Swap(a, pgt, pj);
      }
      pj := pj - 1;
    }
    if pi == pj {
      HighStep(a[..], cmp, v, pj, pgt, top);
    }
  }

  lemma HighRange<T>(s: seq<T>, cmp: (T, T) -> int, v: T, pj: nat, pgt: nat, top: nat)
    requires High(s, cmp, v, pj, pgt, top)
    ensures pj <= pgt <= top
  {}

  /** swap_block: exchanges two blocks that do not overlap. */
  method SwapBlock<T>(a: array<T>, i: nat, j: nat, n: nat)
    requires i + n <= j && j + n <= a.Length
    modifies a
    ensures BlocksExchanged(old(a[..]), a[..], i, j, n) && Rearranged(old(a[..]), a[..], i, j + n)
  {
    hide Rearranged, Exchanged, BlocksExchanged;
    ghost var s0 := a[..];
    Unmoved(s0, i, j + n);
    BlockStart(s0, i, j);
    var k := 0;
    while k < n
      invariant 0 <= k <= n && BlocksExchanged(s0, a[..], i, j, k) && Rearranged(s0, a[..], i, j + n)
    {
      MoveStep(s0, a[..], i + k, j + k, i, j + n);
      BlockStep(s0, a[..], i, j, k);
      Swap(a, i + k, j + k);
      k := k + 1;
    }
  }

  lemma BlockStart<T>(s: seq<T>, i: nat, j: nat)
    requires i <= j <= |s|
    ensures BlocksExchanged(s, s, i, j, 0)
  {}

  lemma BlockStep<T>(s: seq<T>, t: seq<T>, i: nat, j: nat, k: nat)
    requires BlocksExchanged(s, t, i, j, k) && i + k < j && j + k < |s|
    ensures BlocksExchanged(s, Exchanged(t, i + k, j + k), i, j, k + 1)
  {}

  ghost predicate BlocksExchanged<T>(s: seq<T>, t: seq<T>, i: nat, j: nat, n: nat) {
    && i + n <= j && j + n <= |s| == |t|
    && (forall m :: i <= m < i + n ==> t[m] == s[m - i + j])
    && (forall m :: j <= m < j + n ==> t[m] == s[m - j + i])
    && (forall m :: 0 <= m < |s| && !(i <= m < i + n) && !(j <= m < j + n) ==> t[m] == s[m])
  }

  /** Swapping the smaller of the two spans is enough to put the equal items last. */
  lemma LowJoined<T>(s: seq<T>, t: seq<T>, cmp: (T, T) -> int, v: T, ptr: nat, plt: nat, pi: nat, span: nat)
    requires Low(s, cmp, v, ptr, plt, pi) && span == (if plt - ptr > pi - plt then pi - plt else plt - ptr)
    requires BlocksExchanged(s, t, ptr, pi - span, span)
    ensures Compares(t, cmp, v, ptr, ptr + (pi - plt), 1) && Compares(t, cmp, v, ptr + (pi - plt), pi, 0)
  {}

  lemma HighJoined<T>(s: seq<T>, t: seq<T>, cmp: (T, T) -> int, v: T, pi: nat, pgt: nat, top: nat, span: nat)
    requires High(s, cmp, v, pi, pgt, top) && span == (if top - pgt > pgt - pi then pgt - pi else top - pgt)
    requires BlocksExchanged(s, t, pi, top - span, span)
    ensures Compares(t, cmp, v, pi, top - (pgt - pi), 0) && Compares(t, cmp, v, top - (pgt - pi), top, -1)
  {}

  /** The loop over both ends: on return the items are split at pi, the equal ones at the outer ends. */
  method SplitAround<T(!new)>(a: array<T>, cmp: (T, T) -> int, ptr: nat, nmemb: nat, ghost v: T)
    returns (plt: nat, pi: nat, pgt: nat)
    requires Preorder(cmp) && 0 < nmemb && ptr + nmemb <= a.Length && a[ptr] == v
    modifies a
    ensures ptr < plt && Low(a[..], cmp, v, ptr, plt, pi) && High(a[..], cmp, v, pi, pgt, ptr + nmemb)
    ensures Rearranged(old(a[..]), a[..], ptr, ptr + nmemb)
  {
    hide Rearranged, Exchanged, Low, High, Preorder;
    ghost var s0 := a[..];
    plt, pi := ptr + 1, ptr + 1;
    pgt := ptr + nmemb;
    var top, pj := pgt, pgt;
    Unmoved(s0, ptr, top);
    SplitStart(a[..], cmp, v, ptr, top);
    while true
      invariant ptr < plt && pi <= pj <= top && a[ptr] == v
      invariant Low(a[..], cmp, v, ptr, plt, pi) && High(a[..], cmp, v, pj, pgt, top)
      invariant Rearranged(s0, a[..], ptr, top)
      decreases pj - pi
    {
      ghost var s1, pi1, plt1 := a[..], pi, plt;
      LowRange(s1, cmp, v, ptr, plt, pi);
      HighRange(s1, cmp, v, pj, pgt, top);
      plt, pi := ScanUp(a, cmp, v, ptr, plt, pi, pj);
      ghost var s2 := a[..];
      HighKept(s1, s2, cmp, v, pj, pgt, top, plt1);
      MovedWithin(s1, s2, plt1, pj, ptr, top);
      MovedTwice(s0, s1, s2, ptr, top);
      var pj';
      pj', pgt := ScanDown(a, cmp, v, ptr, pi, pj, pgt, top);
      ghost var s3 := a[..];
      LowKept(s2, s3, cmp, v, ptr, plt, pi, top);
      MovedWithin(s2, s3, pi, top, ptr, top);
      MovedTwice(s0, s2, s3, ptr, top);
      if pi >= pj' {
        break;
      }
      LowRange(s3, cmp, v, ptr, plt, pi);
      SplitSwap(s3, cmp, v, ptr, plt, pi, pj', pgt, top);
      MoveStep(s0, s3, pi, pj', ptr, top);
      Swap(a, pi, pj');
      pi := pi + 1;
      pj := pj';
    }
  }

  lemma LowRange<T>(s: seq<T>, cmp: (T, T) -> int, v: T, ptr: nat, plt: nat, pi: nat)
    requires Low(s, cmp, v, ptr, plt, pi)
    ensures ptr <= plt <= pi <= |s|
  {}

  lemma SplitStart<T(!new)>(s: seq<T>, cmp: (T, T) -> int, v: T, ptr: nat, top: nat)
    requires Preorder(cmp) && ptr < top <= |s| && s[ptr] == v
    ensures Low(s, cmp, v, ptr, ptr + 1, ptr + 1) && High(s, cmp, v, top, top, top)
  {
    assert cmp(v, v) == 0;
  }

  lemma SplitSwap<T>(s: seq<T>, cmp: (T, T) -> int, v: T, ptr: nat, plt: nat, pi: nat, pj: nat, pgt: nat, top: nat)
    requires Low(s, cmp, v, ptr, plt, pi) && High(s, cmp, v, pj + 1, pgt, top) && ptr < plt && pi < pj
    requires cmp(v, s[pi]) < 0 && cmp(v, s[pj]) > 0
    ensures
      var t := Exchanged(s, pi, pj);
      Low(t, cmp, v, ptr, plt, pi + 1) && High(t, cmp, v, pj, pgt, top) && t[ptr] == s[ptr]
  {}

  /** One partition: smaller items below lt, items equal to the pivot up to gt, larger ones above. */
  method Partition<T(!new)>(a: array<T>, cmp: (T, T) -> int, ptr: nat, nmemb: nat)
    returns (lt: nat, gt: nat, ghost v: T)
    requires Preorder(cmp) && nmemb > 6 && ptr + nmemb <= a.Length
    modifies a
    ensures Partitioned(a[..], cmp, v, Piece(ptr, ptr + nmemb), ptr + lt, ptr + gt)
    ensures Rearranged(old(a[..]), a[..], ptr, ptr + nmemb)
  {
    hide Rearranged, Exchanged, Low, High, Preorder, Compares, BlocksExchanged;
    ghost var s0 := a[..];
    var top := ptr + nmemb;
    // the pivot: the middle one of three items a quarter of the segment apart
    var m4 := nmemb / 4;
    var m := Median(a, cmp, ptr + m4, ptr + 2 * m4, ptr + 3 * m4);
    ExchangeRearranged(s0, ptr, m, ptr, top);
    Swap(a, ptr, m);
    v := a[ptr];
    ghost var s1 := a[..];
    var plt, pi, pgt := SplitAround(a, cmp, ptr, nmemb, v);
    ghost var s2 := a[..];
    MovedTwice(s0, s1, s2, ptr, top);
    lt, gt := JoinEqual(a, cmp, ptr, plt, pi, pgt, top, v);
    MovedTwice(s0, s2, a[..], ptr, top);
  }

  /** Moves the items equal to the pivot to the middle. */
  method JoinEqual<T(!new)>(a: array<T>, cmp: (T, T) -> int, ptr: nat, plt: nat, pi: nat, pgt: nat, top: nat,
                            ghost v: T)
    returns (lt: nat, gt: nat)
    requires ptr < plt && top <= a.Length && Low(a[..], cmp, v, ptr, plt, pi) && High(a[..], cmp, v, pi, pgt, top)
    modifies a
    ensures Partitioned(a[..], cmp, v, Piece(ptr, top), ptr + lt, ptr + gt)
    ensures Rearranged(old(a[..]), a[..], ptr, top)
  {
    hide Rearranged, Exchanged, Low, High, Compares, BlocksExchanged;
    ghost var s2 := a[..];
    LowRange(s2, cmp, v, ptr, plt, pi);
    HighRange(s2, cmp, v, pi, pgt, top);
    // exchanging as many items as the shorter part has moves all equal ones inward
    lt := pi - plt;
    var span := if plt - ptr > pi - plt then pi - plt else plt - ptr;
    SwapBlock(a, ptr, pi - span, span);
    ghost var s3 := a[..];
    LowJoined(s2, s3, cmp, v, ptr, plt, pi, span);
    HighKept(s2, s3, cmp, v, pi, pgt, top, ptr);
    MovedWithin(s2, s3, ptr, pi, ptr, top);
    gt := top - ptr - (pgt - pi);
    span := if top - pgt > pgt - pi then pgt - pi else top - pgt;
    SwapBlock(a, pi, top - span, span);
    ghost var s4 := a[..];
    HighJoined(s3, s4, cmp, v, pi, pgt, top, span);
    MovedWithin(s3, s4, pi, top, ptr, top);
    MovedTwice(s2, s3, s4, ptr, top);
    Parts(s3, s4, cmp, v, ptr, lt, pi, gt, top);
  }

  lemma Parts<T>(s: seq<T>, t: seq<T>, cmp: (T, T) -> int, v: T, ptr: nat, lt: nat, pi: nat, gt: nat, top: nat)
    requires Compares(s, cmp, v, ptr, ptr + lt, 1) && Compares(s, cmp, v, ptr + lt, pi, 0) && Rearranged(s, t, pi, top)
    requires ptr + lt < pi <= ptr + gt <= top && Compares(t, cmp, v, pi, ptr + gt, 0)
             && Compares(t, cmp, v, ptr + gt, top, -1)
    ensures Partitioned(t, cmp, v, Piece(ptr, top), ptr + lt, ptr + gt)
  {}

  // The sort.

  /** An entry of the stack. */
  datatype Segment = Segment(base: nat, count: nat, depth: nat)

  ghost function PieceOf(g: Segment): Piece {
    Piece(g.base, g.base + g.count)
  }

  /** The pieces on the stack. */
  ghost function Pieces(stack: seq<Segment>): (r: seq<Piece>)
    ensures |r| == |stack|
  {
    seq(|stack|, k requires 0 <= k < |stack| => PieceOf(stack[k]))
  }

  /** What is left to do, for the termination. */
  ghost function Weight(stack: seq<Segment>): nat {
    if stack == [] then 0 else Weight(stack[..|stack| - 1]) + 2 * stack[|stack| - 1].count + 1
  }

  /** The depth of an entry bounds its position. */
  ghost predicate DepthsFit(stack: seq<Segment>) {
    forall k :: 0 <= k < |stack| ==> k <= stack[k].depth <= 50
  }

  lemma Pushed(stack: seq<Segment>, g: Segment)
    ensures Pieces(stack + [g]) == Pieces(stack) + [PieceOf(g)]
            && Weight(stack + [g]) == Weight(stack) + 2 * g.count + 1
  {
    assert (stack + [g])[..|stack|] == stack;
  }

  /** The state between two steps: the entries of the stack, with the current one, cover all that is not in
      order. */
  ghost predicate Waiting<T>(s0: seq<T>, s: seq<T>, cmp: (T, T) -> int, stack: seq<Segment>) {
    && Rearranged(s0, s, 0, |s0|) && DepthsFit(stack)
    && Disjoint(Pieces(stack), |s|) && SortedBut(s, cmp, Pieces(stack))
  }

  lemma WaitingStart<T>(s: seq<T>, cmp: (T, T) -> int)
    ensures Waiting(s, s, cmp, [Segment(0, |s|, 0)])
  {
    WholePiece(s, cmp);
    assert Pieces([Segment(0, |s|, 0)]) == [Piece(0, |s|)];
  }

  lemma WaitingEnd<T>(s0: seq<T>, s: seq<T>, cmp: (T, T) -> int)
    requires Waiting(s0, s, cmp, [])
    ensures multiset(s) == multiset(s0) && |s| == |s0| && Sorted(s, cmp, 0, |s|)
  {
    NothingLeft(s, cmp);
  }

  lemma WaitingRange<T>(s0: seq<T>, s: seq<T>, cmp: (T, T) -> int, stack: seq<Segment>, g: Segment)
    requires Waiting(s0, s, cmp, stack + [g])
    ensures g.base + g.count <= |s| && |stack| <= g.depth <= 50
  {
    Pushed(stack, g);
    assert (stack + [g])[|stack|] == g && (Pieces(stack) + [PieceOf(g)])[|stack|] == PieceOf(g);
  }

  /** The current segment was partitioned; one part goes on the stack. */
  lemma WaitingSplit<T(!new)>(s0: seq<T>, s: seq<T>, t: seq<T>, cmp: (T, T) -> int, v: T, stack: seq<Segment>,
                              g: Segment, lt: nat, gt: nat, push: Segment, next: Segment)
    requires Preorder(cmp) && Waiting(s0, s, cmp, stack + [g]) && Rearranged(s, t, g.base, g.base + g.count)
    requires Partitioned(t, cmp, v, PieceOf(g), g.base + lt, g.base + gt)
             && push.depth == next.depth == g.depth + 1 <= 50
    requires
      var left, right := Piece(g.base, g.base + lt), Piece(g.base + gt, g.base + g.count);
      (PieceOf(push) == left && PieceOf(next) == right) || (PieceOf(push) == right && PieceOf(next) == left)
    ensures Waiting(s0, t, cmp, stack + [push] + [next])
  {
    hide Preorder, Partitioned, SortedBut, Disjoint, Rearranged, Pieces;
    WaitingRange(s0, s, cmp, stack, g);
    Pushed(stack, g);
    Pushed(stack, push);
    Pushed(stack + [push], next);
    SameLength(s, t, g.base, g.base + g.count);
    SameLength(s0, s, 0, |s0|);
    LastRearranged(s, t, cmp, Pieces(stack), PieceOf(g));
    LastPartitioned(t, cmp, Pieces(stack), PieceOf(g), v, g.base + lt, g.base + gt, PieceOf(push), PieceOf(next));
    MovedWithin(s, t, g.base, g.base + g.count, 0, |s0|);
    MovedTwice(s0, s, t, 0, |s0|);
    DepthsGrow(stack, g, push, next);
  }

  lemma SameLength<T>(s: seq<T>, t: seq<T>, lo: nat, hi: nat)
    requires Rearranged(s, t, lo, hi)
    ensures |s| == |t| && lo <= hi <= |s|
  {}

  lemma DepthsGrow(stack: seq<Segment>, g: Segment, push: Segment, next: Segment)
    requires DepthsFit(stack + [g]) && push.depth == next.depth == g.depth + 1 <= 50
    ensures DepthsFit(stack + [push] + [next]) && DepthsFit(stack)
  {
    var old_, new_ := stack + [g], stack + [push] + [next];
    assert old_[|stack|] == g;
    forall k | 0 <= k < |stack|
      ensures new_[k] == old_[k] == stack[k]
    {}
  }

  /** The current segment is sorted; it may stay on as an empty one. */
  lemma WaitingSorted<T>(s0: seq<T>, s: seq<T>, t: seq<T>, cmp: (T, T) -> int, stack: seq<Segment>, g: Segment)
    requires Waiting(s0, s, cmp, stack + [g]) && Rearranged(s, t, g.base, g.base + g.count) && g.base + g.count <= |t|
    requires Sorted(t, cmp, g.base, g.base + g.count)
    ensures Waiting(s0, t, cmp, stack) && Waiting(s0, t, cmp, stack + [Segment(g.base, 0, g.depth)])
  {
    hide SortedBut, Disjoint, Rearranged, Pieces, Sorted;
    var e := Segment(g.base, 0, g.depth);
    WaitingRange(s0, s, cmp, stack, g);
    Pushed(stack, g);
    Pushed(stack, e);
    SameLength(s, t, g.base, g.base + g.count);
    SameLength(s0, s, 0, |s0|);
    LastRearranged(s, t, cmp, Pieces(stack), PieceOf(g));
    LastSorted(t, cmp, Pieces(stack), PieceOf(g));
    LastEmptied(t, cmp, Pieces(stack), PieceOf(g));
    MovedWithin(s, t, g.base, g.base + g.count, 0, |s0|);
    MovedTwice(s0, s, t, 0, |s0|);
    DepthsSame(stack, g, e);
  }

  lemma DepthsSame(stack: seq<Segment>, g: Segment, e: Segment)
    requires DepthsFit(stack + [g]) && g.depth == e.depth
    ensures DepthsFit(stack + [e]) && DepthsFit(stack)
  {
    var old_, new_ := stack + [g], stack + [e];
    assert old_[|stack|] == g;
    forall k | 0 <= k < |stack|
      ensures new_[k] == old_[k] == stack[k]
    {}
  }

  lemma LastEmptied<T>(s: seq<T>, cmp: (T, T) -> int, pieces: seq<Piece>, p: Piece)
    requires Disjoint(pieces + [p], |s|) && SortedBut(s, cmp, pieces)
    ensures Disjoint(pieces + [Piece(p.lo, p.lo)], |s|) && SortedBut(s, cmp, pieces + [Piece(p.lo, p.lo)])
  {
    var e := Piece(p.lo, p.lo);
    var all, new_ := pieces + [p], pieces + [e];
    assert all[|pieces|] == p && new_[|pieces|] == e;
    forall k, l | 0 <= k < l < |new_|
      ensures Apart(new_[k], new_[l])
    {
      assert Apart(all[k], all[l]);
    }
    forall k | 0 <= k < |new_|
      ensures new_[k].lo <= new_[k].hi <= |s|
    {
      assert all[k].lo <= all[k].hi <= |s|;
    }
    forall i, j | 0 <= i < j < |s|
      ensures Together(new_, i, j) || cmp(s[i], s[j]) <= 0
    {
      if Together(pieces, i, j) {
        More(pieces, [e], i, j);
      }
    }
  }

  /** One partition: the larger part is stacked, the smaller one is next. */
  method PartitionStep<T(!new)>(a: array<T>, cmp: (T, T) -> int, stack: array<Segment>, sp: nat, g: Segment,
                                ghost s0: seq<T>)
    returns (next: Segment)
    requires Preorder(cmp) && (a as object) != (stack as object) && sp < stack.Length && g.count > 6 && g.depth < 50
    requires Waiting(s0, a[..], cmp, stack[..sp] + [g])
    modifies a, stack
    ensures Waiting(s0, a[..], cmp, stack[..sp + 1] + [next]) && next.depth == g.depth + 1 && next.count < g.count
    ensures Weight(stack[..sp + 1]) + 2 * next.count < old(Weight(stack[..sp])) + 2 * g.count
  {
    hide Rearranged, Preorder, Waiting, Weight;
    ghost var s, before := a[..], stack[..sp];
    WaitingRange(s0, s, cmp, before, g);
    var ptr, nmemb, depth := g.base, g.count, g.depth + 1;
    var lt, gt;
    ghost var v;
    lt, gt, v := Partition(a, cmp, ptr, nmemb);
    PartRange(a[..], cmp, v, PieceOf(g), ptr + lt, ptr + gt);
    var push;
    if lt > nmemb - gt {
      push, next := Segment(ptr, lt, depth), Segment(ptr + gt, nmemb - gt, depth);
    } else {
      push, next := Segment(ptr + gt, nmemb - gt, depth), Segment(ptr, lt, depth);
    }
    WaitingSplit(s0, s, a[..], cmp, v, before, g, lt, gt, push, next);
    Pushed(before, push);
    stack[sp] := push;
    assert stack[..sp + 1] == before + [push];
  }

  lemma PartRange<T>(s: seq<T>, cmp: (T, T) -> int, v: T, p: Piece, lt: nat, gt: nat)
    requires Partitioned(s, cmp, v, p, lt, gt)
    ensures p.lo <= lt < gt <= p.hi
  {}

  /** The loop over one segment: partitions until a small one is left, or sorts it by the heap sort. */
  method SplitSegment<T(!new)>(a: array<T>, cmp: (T, T) -> int, stack: array<Segment>, sp0: nat, g0: Segment,
                               ghost s0: seq<T>)
    returns (sp: nat, g: Segment)
    requires Preorder(cmp) && (a as object) != (stack as object) && stack.Length == 50 && sp0 < 50
    requires Waiting(s0, a[..], cmp, stack[..sp0] + [g0])
    modifies a, stack
    ensures sp <= 50 && Waiting(s0, a[..], cmp, stack[..sp] + [g])
    ensures Weight(stack[..sp]) < old(Weight(stack[..sp0])) + 2 * g0.count + 1
  {
    hide Rearranged, Preorder, Waiting, Weight, Sorted;
    sp, g := sp0, g0;
    ghost var weight := Weight(stack[..sp0]) + 2 * g0.count;
    WaitingRange(s0, a[..], cmp, stack[..sp], g);
    while g.count > 6
      invariant sp <= g.depth <= 50 && Waiting(s0, a[..], cmp, stack[..sp] + [g])
      invariant Weight(stack[..sp]) + 2 * g.count <= weight
      decreases g.count
    {
      WaitingRange(s0, a[..], cmp, stack[..sp], g);
      if g.depth + 1 > 50 {
        // too many bad partitions: leave the segment to the heap sort
        ghost var s := a[..];
        HeapSort(a, cmp, g.base, g.count);
        WaitingSorted(s0, s, a[..], cmp, stack[..sp], g);
        g := Segment(g.base, 0, g.depth);
        break;
      }
      g := PartitionStep(a, cmp, stack, sp, g, s0);
      sp := sp + 1;
    }
  }

  /** Takes one segment from the stack and sorts it, except for what goes back on the stack. */
  method SortSegment<T(!new)>(a: array<T>, cmp: (T, T) -> int, stack: array<Segment>, sp0: nat, ghost s0: seq<T>)
    returns (sp: nat)
    requires Preorder(cmp) && (a as object) != (stack as object) && stack.Length == 50 && 0 < sp0 <= 50
    requires Waiting(s0, a[..], cmp, stack[..sp0])
    modifies a, stack
    ensures sp <= 50 && Waiting(s0, a[..], cmp, stack[..sp]) && Weight(stack[..sp]) < old(Weight(stack[..sp0]))
  {
    hide Rearranged, Preorder, Waiting, Weight, Sorted;
    var g := stack[sp0 - 1];
    ghost var rest := stack[..sp0 - 1];
    assert stack[..sp0] == rest + [g];
    Pushed(rest, g);
    sp, g := SplitSegment(a, cmp, stack, sp0 - 1, g, s0);
    ghost var s, left := a[..], stack[..sp];
    WaitingRange(s0, s, cmp, left, g);
    // what is left has at most six items
    InsertionSort(a, cmp, g.base, g.count);
    WaitingSorted(s0, s, a[..], cmp, left, g);
  }

  /** rqsort: the result is sorted and has the same items; the 50 entries of the stack suffice. */
  method Rqsort<T(!new)>(a: array<T>, cmp: (T, T) -> int)
    requires Preorder(cmp)
    modifies a
    ensures multiset(a[..]) == multiset(old(a[..])) && Sorted(a[..], cmp, 0, a.Length)
  {
    hide Rearranged, Preorder, Waiting, Weight, Sorted;
    ghost var s0 := a[..];
    var nmemb := a.Length;
    if nmemb < 2 {
      FewSorted(s0, cmp, 0, nmemb);
      return;
    }
    var stack := new Segment[50](i => Segment(0, 0, 0));
    stack[0] := Segment(0, nmemb, 0);
    var sp := 1;
    WaitingStart(s0, cmp);
    assert stack[..1] == [Segment(0, |s0|, 0)];
    while sp > 0
      invariant 0 <= sp <= 50 && fresh(stack) && Waiting(s0, a[..], cmp, stack[..sp])
      decreases Weight(stack[..sp])
    {
      sp := SortSegment(a, cmp, stack, sp, s0);
    }
    assert stack[..0] == [];
    WaitingEnd(s0, a[..], cmp);
  }
}
