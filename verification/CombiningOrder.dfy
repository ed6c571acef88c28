/** The canonical ordering of combining characters (libunicode.c sort_cc; section 3.11 of the Unicode Standard). */
module CombiningOrder {

  /** ch behind the last item that does not have to come after it. */
  ghost function Insert(t: seq<int>, ch: int, cc: int -> nat): (r: seq<int>)
    ensures |r| == |t| + 1
  {
    if t == [] || cc(ch) == 0 || cc(t[|t| - 1]) <= cc(ch) then t + [ch]
    else Insert(t[..|t| - 1], ch, cc) + [t[|t| - 1]]
  }

  /** The items of u inserted one after the other. */
  ghost function InsertAll(t: seq<int>, u: seq<int>, cc: int -> nat): (r: seq<int>)
    ensures |r| == |t| + |u|
    decreases |u|
  {
    if u == [] then t else InsertAll(Insert(t, u[0], cc), u[1..], cc)
  }

  /** The sequence in canonical order. */
  ghost function Ordered(s: seq<int>, cc: int -> nat): seq<int> {
    InsertAll([], s, cc)
  }

  lemma {:induction false} InsertAllConcat(t: seq<int>, u: seq<int>, v: seq<int>, cc: int -> nat)
    ensures InsertAll(t, u + v, cc) == InsertAll(InsertAll(t, u, cc), v, cc)
    decreases |u|
  {
    if u == [] {
      assert u + v == v;
    } else {
      assert (u + v)[1..] == u[1..] + v;
      InsertAllConcat(Insert(t, u[0], cc), u[1..], v, cc);
    }
  }

  lemma OrderedSnoc(s: seq<int>, ch: int, cc: int -> nat)
    ensures Ordered(s + [ch], cc) == Insert(Ordered(s, cc), ch, cc)
  {
    InsertAllConcat([], s, [ch], cc);
    assert [ch][1..] == [];
  }

  // Canonical equivalence.

  /** t is s with two neighbours exchanged whose classes differ and are not zero. */
  ghost predicate Exchange(s: seq<int>, t: seq<int>, i: nat, cc: int -> nat) {
    && |s| == |t| && i + 1 < |s| && t == s[i := s[i + 1]][i + 1 := s[i]]
    && cc(s[i]) != cc(s[i + 1]) && cc(s[i]) != 0 && cc(s[i + 1]) != 0
  }

  /** n exchanges lead from s to t. */
  ghost predicate Exchanges(s: seq<int>, t: seq<int>, n: nat, cc: int -> nat)
    decreases n
  {
    if n == 0 then s == t else exists u: seq<int>, i: nat :: Exchange(s, u, i, cc) && Exchanges(u, t, n - 1, cc)
  }

  ghost predicate Equivalent(s: seq<int>, t: seq<int>, cc: int -> nat) {
    exists n: nat :: Exchanges(s, t, n, cc)
  }

  lemma {:induction false} SmallerFirst(t: seq<int>, x: int, y: int, cc: int -> nat)
    requires 0 < cc(x) < cc(y)
    ensures Insert(Insert(t, x, cc), y, cc) == Insert(Insert(t, y, cc), x, cc)
    decreases |t|
  {
    if t == [] || cc(t[|t| - 1]) <= cc(y) {
      assert (t + [y])[..|t|] == t;
      LastAfter(t, x, y, cc);
    } else {
      var u, z := t[..|t| - 1], t[|t| - 1];
      SmallerFirst(u, x, y, cc);
      assert (Insert(u, x, cc) + [z])[..|t|] == Insert(u, x, cc);
      assert (Insert(u, y, cc) + [z])[..|t|] == Insert(u, y, cc);
    }
  }

  lemma LastAfter(t: seq<int>, x: int, y: int, cc: int -> nat)
    requires 0 < cc(x) < cc(y) && (t == [] || cc(t[|t| - 1]) <= cc(y))
    ensures Insert(Insert(t, x, cc), y, cc) == Insert(t, x, cc) + [y]
  {
    var r := Insert(t, x, cc);
    assert r[|t|] == x || (t != [] && r[|t|] == t[|t| - 1]);
  }

  /** The order in which two items of different classes are inserted does not matter. */
  lemma InsertsCommute(t: seq<int>, x: int, y: int, cc: int -> nat)
    requires cc(x) != cc(y) && cc(x) != 0 && cc(y) != 0
    ensures Insert(Insert(t, x, cc), y, cc) == Insert(Insert(t, y, cc), x, cc)
  {
    if cc(x) < cc(y) {
      SmallerFirst(t, x, y, cc);
    } else {
      SmallerFirst(t, y, x, cc);
    }
  }

  lemma ExchangeSameOrder(s: seq<int>, t: seq<int>, i: nat, cc: int -> nat)
    requires Exchange(s, t, i, cc)
    ensures Ordered(s, cc) == Ordered(t, cc)
  {
    var p, q, x, y := s[..i], s[i + 2..], s[i], s[i + 1];
    assert s == p + ([x, y] + q) && t == p + ([y, x] + q);
    InsertAllConcat([], p, [x, y] + q, cc);
    InsertAllConcat([], p, [y, x] + q, cc);
    var o := Ordered(p, cc);
    TwoFirst(o, x, y, q, cc);
    TwoFirst(o, y, x, q, cc);
    InsertsCommute(o, x, y, cc);
  }

  lemma TwoFirst(o: seq<int>, x: int, y: int, q: seq<int>, cc: int -> nat)
    ensures InsertAll(o, [x, y] + q, cc) == InsertAll(Insert(Insert(o, x, cc), y, cc), q, cc)
  {
    assert ([x, y] + q)[1..] == [y] + q;
    assert ([y] + q)[1..] == q;
  }

  lemma {:induction false} ExchangesSameOrder(s: seq<int>, t: seq<int>, n: nat, cc: int -> nat)
    requires Exchanges(s, t, n, cc)
    ensures Ordered(s, cc) == Ordered(t, cc)
    decreases n
  {
    if n > 0 {
      var u: seq<int>, i: nat :| Exchange(s, u, i, cc) && Exchanges(u, t, n - 1, cc);
      ExchangeSameOrder(s, u, i, cc);
      ExchangesSameOrder(u, t, n - 1, cc);
    }
  }

  // The ordered sequence is reached by exchanges.

  lemma {:induction false} ExchangesTrans(s: seq<int>, t: seq<int>, u: seq<int>, m: nat, n: nat, cc: int -> nat)
    requires Exchanges(s, t, m, cc) && Exchanges(t, u, n, cc)
    ensures Exchanges(s, u, m + n, cc)
    decreases m
  {
    if m > 0 {
      var v: seq<int>, i: nat :| Exchange(s, v, i, cc) && Exchanges(v, t, m - 1, cc);
      ExchangesTrans(v, t, u, m - 1, n, cc);
      assert Exchange(s, v, i, cc) && Exchanges(v, u, m + n - 1, cc);
    }
  }

  lemma EquivalentTrans(s: seq<int>, t: seq<int>, u: seq<int>, cc: int -> nat)
    requires Equivalent(s, t, cc) && Equivalent(t, u, cc)
    ensures Equivalent(s, u, cc)
  {
    var m: nat :| Exchanges(s, t, m, cc);
    var n: nat :| Exchanges(t, u, n, cc);
    ExchangesTrans(s, t, u, m, n, cc);
  }

  lemma EquivalentSelf(s: seq<int>, cc: int -> nat)
    ensures Equivalent(s, s, cc)
  {
    assert Exchanges(s, s, 0, cc);
  }

  lemma ExchangeEquivalent(s: seq<int>, t: seq<int>, i: nat, cc: int -> nat)
    requires Exchange(s, t, i, cc)
    ensures Equivalent(s, t, cc)
  {
    assert Exchanges(t, t, 0, cc);
    assert Exchanges(s, t, 1, cc);
  }

  lemma {:induction false} ExchangesSymmetric(s: seq<int>, t: seq<int>, n: nat, cc: int -> nat)
    requires Exchanges(s, t, n, cc)
    ensures Equivalent(t, s, cc)
    decreases n
  {
    if n == 0 {
      EquivalentSelf(s, cc);
    } else {
      var u: seq<int>, i: nat :| Exchange(s, u, i, cc) && Exchanges(u, t, n - 1, cc);
      ExchangesSymmetric(u, t, n - 1, cc);
      assert u[i := u[i + 1]][i + 1 := u[i]] == s;
      ExchangeEquivalent(u, s, i, cc);
      EquivalentTrans(t, u, s, cc);
    }
  }

  lemma {:induction false} ExchangesSnoc(s: seq<int>, t: seq<int>, ch: int, n: nat, cc: int -> nat)
    requires Exchanges(s, t, n, cc)
    ensures Equivalent(s + [ch], t + [ch], cc)
    decreases n
  {
    if n == 0 {
      EquivalentSelf(s + [ch], cc);
    } else {
      var u: seq<int>, i: nat :| Exchange(s, u, i, cc) && Exchanges(u, t, n - 1, cc);
      ExchangesSnoc(u, t, ch, n - 1, cc);
      assert Exchange(s + [ch], u + [ch], i, cc);
      ExchangeEquivalent(s + [ch], u + [ch], i, cc);
      EquivalentTrans(s + [ch], u + [ch], t + [ch], cc);
    }
  }

  lemma EquivalentSnoc(s: seq<int>, t: seq<int>, ch: int, cc: int -> nat)
    requires Equivalent(s, t, cc)
    ensures Equivalent(s + [ch], t + [ch], cc)
  {
    var n: nat :| Exchanges(s, t, n, cc);
    ExchangesSnoc(s, t, ch, n, cc);
  }

  lemma {:induction false} InsertEquivalent(t: seq<int>, ch: int, cc: int -> nat)
    ensures Equivalent(t + [ch], Insert(t, ch, cc), cc)
    decreases |t|
  {
    if t == [] || cc(ch) == 0 || cc(t[|t| - 1]) <= cc(ch) {
      EquivalentSelf(t + [ch], cc);
    } else {
      var u, z := t[..|t| - 1], t[|t| - 1];
      assert Exchange(t + [ch], u + [ch] + [z], |t| - 1, cc);
      ExchangeEquivalent(t + [ch], u + [ch] + [z], |t| - 1, cc);
      InsertEquivalent(u, ch, cc);
      EquivalentSnoc(u + [ch], Insert(u, ch, cc), z, cc);
      EquivalentTrans(t + [ch], u + [ch] + [z], Insert(t, ch, cc), cc);
    }
  }

  lemma {:induction false} OrderedEquivalent(s: seq<int>, cc: int -> nat)
    ensures Equivalent(s, Ordered(s, cc), cc)
    decreases |s|
  {
    if s == [] {
      EquivalentSelf(s, cc);
    } else {
      var u, ch := s[..|s| - 1], s[|s| - 1];
      assert s == u + [ch];
      OrderedEquivalent(u, cc);
      OrderedSnoc(u, ch, cc);
      EquivalentSnoc(u, Ordered(u, cc), ch, cc);
      InsertEquivalent(Ordered(u, cc), ch, cc);
      EquivalentTrans(s, Ordered(u, cc) + [ch], Ordered(s, cc), cc);
    }
  }

  /** Two sequences have the same canonical order exactly when exchanges lead from one to the other. */
  lemma NormalForm(s: seq<int>, t: seq<int>, cc: int -> nat)
    ensures Ordered(s, cc) == Ordered(t, cc) <==> Equivalent(s, t, cc)
  {
    if Equivalent(s, t, cc) {
      var n: nat :| Exchanges(s, t, n, cc);
      ExchangesSameOrder(s, t, n, cc);
    }
    if Ordered(s, cc) == Ordered(t, cc) {
      OrderedEquivalent(s, cc);
      OrderedEquivalent(t, cc);
      var n: nat :| Exchanges(t, Ordered(t, cc), n, cc);
      ExchangesSymmetric(t, Ordered(t, cc), n, cc);
      EquivalentTrans(s, Ordered(s, cc), t, cc);
    }
  }

  /** No item follows one of a higher class, unless its own class is zero. */
  ghost predicate InOrder(s: seq<int>, cc: int -> nat) {
    forall i :: 0 < i < |s| ==> cc(s[i]) == 0 || cc(s[i - 1]) <= cc(s[i])
  }

  lemma {:induction false} InsertInOrder(t: seq<int>, ch: int, cc: int -> nat)
    requires InOrder(t, cc)
    ensures InOrder(Insert(t, ch, cc), cc)
    ensures cc(ch) != 0 && t != [] ==>
      var r := Insert(t, ch, cc);
      r[|t|] == t[|t| - 1] || r[|t|] == ch
    decreases |t|
  {
    if t != [] && cc(ch) != 0 && cc(t[|t| - 1]) > cc(ch) {
      InsertInOrder(t[..|t| - 1], ch, cc);
    }
  }

  lemma {:induction false} OrderedInOrder(s: seq<int>, cc: int -> nat)
    ensures InOrder(Ordered(s, cc), cc)
    decreases |s|
  {
    if s != [] {
      var u, ch := s[..|s| - 1], s[|s| - 1];
      assert s == u + [ch];
      OrderedInOrder(u, cc);
      OrderedSnoc(u, ch, cc);
      InsertInOrder(Ordered(u, cc), ch, cc);
    }
  }

  // The sort in place.

  /** Items of higher classes are passed on the way down. */
  lemma {:induction false} InsertPasses(t: seq<int>, ch: int, k: nat, cc: int -> nat)
    requires k <= |t| && cc(ch) != 0 && forall m :: k <= m < |t| ==> cc(t[m]) > cc(ch)
    ensures Insert(t, ch, cc) == Insert(t[..k], ch, cc) + t[k..]
    decreases |t|
  {
    if k < |t| {
      var u := t[..|t| - 1];
      InsertPasses(u, ch, k, cc);
      assert u[..k] == t[..k] && u[k..] + [t[|t| - 1]] == t[k..];
    } else {
      assert t[..k] == t;
    }
  }


  /** Where an item stops: it is put behind the first item from the right that is not of a higher class. */
  lemma InsertAt(t: seq<int>, ch: int, k: nat, cc: int -> nat)
    requires k <= |t| && cc(ch) != 0 && (forall m :: k <= m < |t| ==> cc(t[m]) > cc(ch))
             && (k > 0 ==> cc(t[k - 1]) <= cc(ch))
    ensures Insert(t, ch, cc) == t[..k] + [ch] + t[k..]
  {
    InsertPasses(t, ch, k, cc);
  }

  /** The inner loop: puts the item at j where it belongs in the block from start on. */
  method InsertItem(buf: array<int>, start: nat, j: nat, cc: int -> nat)
    requires start < j < buf.Length && cc(buf[j]) != 0 && (start > 0 ==> cc(buf[start - 1]) == 0)
    modifies buf
    ensures buf[..j + 1] == Insert(old(buf[..j]), old(buf[j]), cc) && buf[j + 1..] == old(buf[j + 1..])
    ensures buf[..start] == old(buf[..start])
  {
    hide Insert;
    ghost var b := buf[..];
    ghost var t := b[..j];
    var ch1 := buf[j];
    var cc1 := cc(ch1);
    var k: int := j - 1;
    while k >= start && cc(buf[k]) > cc1
      invariant start - 1 <= k < j
      invariant forall m :: 0 <= m < buf.Length && !(k < m <= j) ==> buf[m] == b[m]
      invariant forall m :: k + 2 <= m <= j ==> buf[m] == b[m - 1]
      invariant forall m :: k < m < j ==> cc(b[m]) > cc1
    {
      buf[k + 1] := buf[k];
      k := k - 1;
    }
    buf[k + 1] := ch1;
    InsertAt(t, ch1, k + 1, cc);
    Placed(b, buf[..], j, k + 1, ch1);
    assert buf[..start] == b[..start];
  }

  lemma Placed(b: seq<int>, c: seq<int>, j: nat, k: nat, ch: int)
    requires k <= j < |b| == |c| && c[k] == ch
    requires forall m :: 0 <= m < |b| && !(k <= m <= j) ==> c[m] == b[m]
    requires forall m :: k + 1 <= m <= j ==> c[m] == b[m - 1]
    ensures c[..j + 1] == b[..j][..k] + [ch] + b[..j][k..] && c[j + 1..] == b[j + 1..]
  {}

  /** sort_cc: the buffer gets its canonical order. */
  method SortCc(buf: array<int>, cc: int -> nat)
    modifies buf
    ensures buf[..] == Ordered(old(buf[..]), cc)
  {
    ghost var s := buf[..];
    var len := buf.Length;
    var i := 0;
    while i < len
      invariant 0 <= i <= len && SortedUpTo(buf[..], s, i, cc) && (0 < i < len ==> cc(buf[i - 1]) == 0)
      decreases len - i
    {
      TakeOne(buf[..], s, i, cc);
      if cc(buf[i]) != 0 {
        i := SortBlock(buf, i, s, cc);
        if i < len {
          TakeOne(buf[..], s, i, cc);
        }
      }
      i := if i < len then i + 1 else len;
    }
    assert s[..len] == s && buf[..len] == buf[..];
  }

  /** The first i items are in order, the others as they were. */
  ghost predicate SortedUpTo(b: seq<int>, s: seq<int>, i: nat, cc: int -> nat) {
    i <= |b| == |s| && b[..i] == Ordered(s[..i], cc) && b[i..] == s[i..]
  }

  /** An item of class zero, or one behind such an item, stays where it is. */
  lemma TakeOne(b: seq<int>, s: seq<int>, i: nat, cc: int -> nat)
    requires SortedUpTo(b, s, i, cc) && i < |s|
    ensures cc(b[i]) == 0 || i == 0 || cc(b[i - 1]) == 0 ==> SortedUpTo(b, s, i + 1, cc)
  {
    assert s[..i + 1] == s[..i] + [s[i]];
    assert b[i] == b[i..][0] == s[i];
    OrderedSnoc(s[..i], s[i], cc);
    assert b[..i + 1] == b[..i] + [b[i]];
  }

  lemma TakeInserted(b: seq<int>, c: seq<int>, s: seq<int>, j: nat, cc: int -> nat)
    requires SortedUpTo(b, s, j, cc) && j < |s| && |c| == |b|
    requires c[..j + 1] == Insert(b[..j], b[j], cc) && c[j + 1..] == b[j + 1..]
    ensures SortedUpTo(c, s, j + 1, cc)
  {
    assert s[..j + 1] == s[..j] + [s[j]];
    assert b[j] == b[j..][0] == s[j];
    OrderedSnoc(s[..j], s[j], cc);
    assert b[j + 1..] == b[j..][1..] == s[j..][1..] == s[j + 1..];
  }

  /** One block of items of nonzero class. */
  method SortBlock(buf: array<int>, start: nat, ghost s: seq<int>, cc: int -> nat) returns (j: nat)
    requires start < buf.Length && SortedUpTo(buf[..], s, start + 1, cc) && (start > 0 ==> cc(buf[start - 1]) == 0)
    modifies buf
    ensures start < j <= buf.Length && SortedUpTo(buf[..], s, j, cc) && (j < buf.Length ==> cc(buf[j]) == 0)
  {
    j := start + 1;
    while j < buf.Length
      invariant start < j <= buf.Length && SortedUpTo(buf[..], s, j, cc) && (start > 0 ==> cc(buf[start - 1]) == 0)
    {
      if cc(buf[j]) == 0 {
        break;
      }
      ghost var b := buf[..];
      InsertItem(buf, start, j, cc);
      assert start > 0 ==> buf[..start][start - 1] == b[..start][start - 1];
      TakeInserted(b, buf[..], s, j, cc);
      j := j + 1;
    }
  }
}
