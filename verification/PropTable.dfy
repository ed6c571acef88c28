/** The compressed tables of character properties (libunicode.c): linear decoding, and the indexed look-up. */
module PropTable {
  import opened Byte
  import opened CharRanges

  // The encoding: runs of characters that alternately do not have and have the property.

  /** The number of bytes of an item. */
  function Size(b: byte): nat {
    if b < 64 || b >= 0x80 then 1 else if b < 0x60 then 2 else 3
  }

  /** The items from pos on are complete. */
  predicate Fits(p: seq<byte>, pos: nat)
    decreases |p| - pos
  {
    pos == |p| || (pos < |p| && pos + Size(p[pos]) <= |p| && Fits(p, pos + Size(p[pos])))
  }

  /** The length of the run of an item, or of its second run. */
  function Length(p: seq<byte>, pos: nat): (n: nat)
    requires pos < |p| && pos + Size(p[pos]) <= |p|
    ensures n >= 1
  {
    var b: int := p[pos];
    if b < 64 then b % 8 + 1
    else if b >= 0x80 then b - 0x80 + 1
    else
      var b1: int := p[pos + 1];
      if b < 0x60 then (b - 0x40) * 0x100 + b1 + 1
      else
        var b2: int := p[pos + 2];
        (b - 0x60) * 0x10000 + b1 * 0x100 + b2 + 1
  }

  /** The lengths of the runs from pos on. */
  ghost function Runs(p: seq<byte>, pos: nat): seq<nat>
    requires Fits(p, pos)
    decreases |p| - pos
  {
    if pos == |p| then []
    else ItemRuns(p, pos) + Runs(p, pos + Size(p[pos]))
  }

  /** The lengths of the one or two runs of an item. */
  ghost function ItemRuns(p: seq<byte>, pos: nat): seq<nat>
    requires pos < |p| && pos + Size(p[pos]) <= |p|
  {
    (if p[pos] < 64 then [p[pos] / 8 + 1] else []) + [Length(p, pos)]
  }

  ghost function Total(runs: seq<nat>): nat {
    if runs == [] then 0 else runs[0] + Total(runs[1..])
  }

  /** Does c have the property, when the runs begin at code with the given value? */
  ghost predicate HasProperty(runs: seq<nat>, bit: bool, code: int, c: int) {
    runs != [] && if c < code + runs[0] then bit else HasProperty(runs[1..], !bit, code + runs[0], c)
  }

  ghost predicate TableOk(p: seq<byte>) {
    Fits(p, 0) && Total(Runs(p, 0)) < UINT32_MAX
  }

  /** The meaning of a table. */
  ghost predicate InTable(p: seq<byte>, c: int)
    requires TableOk(p)
  {
    c >= 0 && HasProperty(Runs(p, 0), false, 0, c)
  }

  /** The tail of the item at pos, as both loops read it: the length of its last run, and the next item. */
  method ReadLength(p: seq<byte>, pos: nat) returns (n: int, next: nat)
    requires pos < |p| && pos + Size(p[pos]) <= |p|
    ensures n == Length(p, pos) && next == pos + Size(p[pos])
  {
    var b: int := p[pos];
    next := pos + 1;
    if b < 64 {
      n := b % 8 + 1;
    } else if b >= 0x80 {
      n := b - 0x80 + 1;
    } else if b < 0x60 {
      var b1: int := p[next];
      n := (b - 0x40) * 0x100 + b1 + 1;
      next := next + 1;
    } else {
      var b1: int, b2: int := p[next], p[next + 1];
      n := (b - 0x60) * 0x10000 + b1 * 0x100 + b2 + 1;
      next := next + 2;
    }
  }

  // Linear decoding.

  /** The intervals found so far, with the runs to come, mean what all runs mean. */
  ghost predicate DecodedTo(pts: seq<point>, p: seq<byte>, runs: seq<nat>, bit: bool, code: int)
    requires TableOk(p)
  {
    && Compressed(pts) && AllUpTo(pts, code) && (bit ==> pts == [] || pts[|pts| - 1] < code)
    && forall c: int :: InTable(p, c) <==> Member(pts, c) || (c >= code && HasProperty(runs, bit, code, c))
  }

  lemma RunDecoded(pts: seq<point>, p: seq<byte>, runs: seq<nat>, bit: bool, code: point, next: point, pts': seq<point>)
    requires TableOk(p) && DecodedTo(pts, p, runs, bit, code) && runs != [] && runs[0] >= 1 && next == code + runs[0]
    requires pts' == if bit then pts + [code, next] else pts
    ensures DecodedTo(pts', p, runs[1..], !bit, next)
  {
    forall c: int
      ensures InTable(p, c) <==> Member(pts', c) || (c >= next && HasProperty(runs[1..], !bit, next, c))
    {
      if bit {
        PairMembers(pts, code, next, c);
      } else {
        CoveredMember(pts, c);
      }
      assert InTable(p, c) <==> Member(pts, c) || (c >= code && HasProperty(runs, bit, code, c));
    }
  }

  lemma DecodedStart(p: seq<byte>)
    requires TableOk(p)
    ensures DecodedTo([], p, Runs(p, 0), false, 0)
  {}

  /** What is left fits below UINT32_MAX. */
  lemma RunFits(runs: seq<nat>, code: int)
    requires runs != [] && code + Total(runs) < UINT32_MAX && code >= 0
    ensures code + runs[0] < UINT32_MAX && code + runs[0] + Total(runs[1..]) == code + Total(runs)
  {}

  /** unicode_prop1: the set of the characters that have the property. */
  method UnicodeProp1(cr: CharRange, p: seq<byte>)
    requires TableOk(p) && cr.points == []
    modifies cr
    ensures Compressed(cr.points) && forall c: int :: Member(cr.points, c) <==> InTable(p, c)
  {
    hide DecodedTo, Member, Compressed, Total, HasProperty;
    var pos, c, bit := 0, 0, false;
    DecodedStart(p);
    while pos < |p|
      invariant 0 <= pos <= |p| && Fits(p, pos) && 0 <= c && c + Total(Runs(p, pos)) < UINT32_MAX
      invariant DecodedTo(cr.points, p, Runs(p, pos), bit, c)
      decreases |p| - pos
    {
      var c0: point := c;
      var b := p[pos];
      ghost var runs := Runs(p, pos);
      if b < 64 {
        RunFits(runs, c);
        c := c + b / 8 + 1;
        ghost var pts := cr.points;
        if bit {
          cr.AddInterval(c0, c);
        }
        RunDecoded(pts, p, runs, bit, c0, c, cr.points);
        bit := !bit;
        c0 := c;
        runs := runs[1..];
      }
      RunFits(runs, c);
      var n, next := ReadLength(p, pos);
      c := c + n;
      ghost var pts := cr.points;
      if bit {
        cr.AddInterval(c0, c);
      }
      RunDecoded(pts, p, runs, bit, c0, c, cr.points);
      bit := !bit;
      assert runs[1..] == Runs(p, next);
      pos := next;
    }
    DecodedEnd(cr.points, p, bit, c);
  }

  lemma DecodedEnd(pts: seq<point>, p: seq<byte>, bit: bool, code: int)
    requires TableOk(p) && DecodedTo(pts, p, [], bit, code)
    ensures Compressed(pts) && forall c: int :: Member(pts, c) <==> InTable(p, c)
  {}

  // The index.

  /** get_le24 */
  function Le24(index: seq<byte>, i: nat): int
    requires 3 * i + 2 < |index|
  {
    var b0: int, b1: int, b2: int := index[3 * i], index[3 * i + 1], index[3 * i + 2];
    b0 + b1 * 0x100 + b2 * 0x10000
  }

  /** The first character of a block, and where in the table the block begins. */
  function BlockCode(index: seq<byte>, i: nat): int
    requires 3 * i + 2 < |index|
  {
    Le24(index, i) % 0x20_0000
  }

  function BlockPos(index: seq<byte>, i: nat): int
    requires 3 * i + 2 < |index|
  {
    (i + 1) * 32 + Le24(index, i) / 0x20_0000
  }

  /** Decoding from the start arrives at pos with this character, after an even number of runs. */
  ghost predicate Boundary(p: seq<byte>, pos: int, code: int)
    requires Fits(p, 0)
  {
    && 0 <= pos <= |p| && Fits(p, pos)
    && exists head: seq<nat> :: Runs(p, 0) == head + Runs(p, pos) && |head| % 2 == 0 && Total(head) == code
  }

  /** The index leads to boundaries; its last entry is the end of the table. */
  ghost predicate IndexOk(p: seq<byte>, index: seq<byte>)
    requires Fits(p, 0)
  {
    var n := |index| / 3;
    && n >= 1 && |index| % 3 == 0 && Le24(index, n - 1) == Total(Runs(p, 0)) < 0x20_0000
    && (forall i :: 0 <= i < n - 1 ==> Boundary(p, BlockPos(index, i), BlockCode(index, i)))
    && BlockCode(index, 0) <= Total(Runs(p, 0))
  }

  lemma {:induction false} SkipRuns(head: seq<nat>, runs: seq<nat>, bit: bool, code: int, c: int)
    requires c >= code + Total(head)
    ensures HasProperty(head + runs, bit, code, c)
            <==> HasProperty(runs, if |head| % 2 == 0 then bit else !bit, code + Total(head), c)
    decreases |head|
  {
    if head == [] {
      assert head + runs == runs;
    } else {
      assert (head + runs)[1..] == head[1..] + runs;
      SkipRuns(head[1..], runs, !bit, code + head[0], c);
    }
  }

  lemma {:induction false} BeyondRuns(runs: seq<nat>, bit: bool, code: int, c: int)
    requires c >= code + Total(runs)
    ensures !HasProperty(runs, bit, code, c)
    decreases |runs|
  {
    SkipRuns(runs, [], bit, code, c);
    assert runs + [] == runs;
  }

  /** At a boundary the rest of the table decides. */
  lemma FromBoundary(p: seq<byte>, pos: int, code: int, c: int)
    requires TableOk(p) && Boundary(p, pos, code) && c >= code >= 0
    ensures InTable(p, c) <==> HasProperty(Runs(p, pos), false, code, c)
    ensures code + Total(Runs(p, pos)) == Total(Runs(p, 0))
  {
    var head: seq<nat> :| Runs(p, 0) == head + Runs(p, pos) && |head| % 2 == 0 && Total(head) == code;
    SkipRuns(head, Runs(p, pos), false, 0, c);
    TotalConcat(head, Runs(p, pos));
  }

  lemma {:induction false} TotalConcat(s: seq<nat>, t: seq<nat>)
    ensures Total(s + t) == Total(s) + Total(t)
    decreases |s|
  {
    if s == [] {
      assert s + t == t;
    } else {
      assert (s + t)[1..] == s[1..] + t;
      TotalConcat(s[1..], t);
    }
  }

  /** get_index_pos: a block that begins at or before c, or -1 behind the table. */
  method GetIndexPos(p: seq<byte>, index: seq<byte>, c: int) returns (pos: int, code: int)
    requires TableOk(p) && IndexOk(p, index) && c >= 0
    ensures pos < 0 <==> c >= Total(Runs(p, 0))
    ensures pos >= 0 ==> 0 <= code <= c && Boundary(p, pos, code)
  {
    hide Boundary, Total, Runs;
    var idxMin, n := 0, |index| / 3;
    code := BlockCode(index, 0);
    if c < code {
      StartBoundary(p);
      return 0, 0;
    }
    var idxMax := n - 1;
    code := Le24(index, idxMax);
    if c >= code {
      return -1, code;
    }
    while idxMax - idxMin > 1
      invariant 0 <= idxMin <= idxMax <= n - 1 && BlockCode(index, idxMin) <= c
      invariant idxMin < idxMax
    {
      var idx := (idxMax + idxMin) / 2;
      code := BlockCode(index, idx);
      if c < code {
        idxMax := idx;
      } else {
        idxMin := idx;
      }
    }
    code := BlockCode(index, idxMin);
    return BlockPos(index, idxMin), code;
  }

  lemma StartBoundary(p: seq<byte>)
    requires Fits(p, 0)
    ensures Boundary(p, 0, 0)
  {
    assert Runs(p, 0) == [] + Runs(p, 0);
  }

  /** lre_is_in_table: the indexed look-up says what linear decoding says. */
  method LreIsInTable(p: seq<byte>, index: seq<byte>, c: int) returns (r: bool)
    requires TableOk(p) && IndexOk(p, index) && c >= 0
    ensures r <==> InTable(p, c)
  {
    hide Boundary, Total, HasProperty;
    var pos, code := GetIndexPos(p, index, c);
    if pos < 0 {
      BeyondRuns(Runs(p, 0), false, 0, c);
      return false;
    }
    FromBoundary(p, pos, code, c);
    BoundaryFits(p, pos, code);
    var bit := false;
    while true
      invariant 0 <= pos <= |p| && Fits(p, pos) && code <= c < code + Total(Runs(p, pos))
      invariant InTable(p, c) <==> HasProperty(Runs(p, pos), bit, code, c)
      decreases |p| - pos
    {
      EndReached(p, pos, code, c);
      var b := p[pos];
      ghost var runs := Runs(p, pos);
      if b < 64 {
        OneRun(runs, bit, code, c);
        code := code + b / 8 + 1;
        if c < code {
          return bit;
        }
        bit := !bit;
        runs := runs[1..];
      }
      OneRun(runs, bit, code, c);
      var n, next := ReadLength(p, pos);
      code := code + n;
      if c < code {
        return bit;
      }
      bit := !bit;
      assert runs[1..] == Runs(p, next);
      pos := next;
    }
  }

  lemma BoundaryFits(p: seq<byte>, pos: int, code: int)
    requires Fits(p, 0) && Boundary(p, pos, code)
    ensures 0 <= pos <= |p| && Fits(p, pos)
  {}

  lemma EndReached(p: seq<byte>, pos: nat, code: int, c: int)
    requires pos <= |p| && Fits(p, pos) && code <= c < code + Total(Runs(p, pos))
    ensures pos < |p|
  {}

  lemma OneRun(runs: seq<nat>, bit: bool, code: int, c: int)
    requires runs != []
    ensures Total(runs) == runs[0] + Total(runs[1..])
    ensures HasProperty(runs, bit, code, c)
            <==> if c < code + runs[0] then bit else HasProperty(runs[1..], !bit, code + runs[0], c)
  {}

  // The writer: every list of run lengths, and so every set without the character 0, has a table.

  /** Run lengths that an item can hold. */
  predicate Writable(runs: seq<nat>) {
    forall i :: 0 <= i < |runs| ==> 1 <= runs[i] <= 0x20_0000
  }

  /** Two runs of up to eight characters share a byte. */
  predicate Shares(runs: seq<nat>) {
    |runs| >= 2 && runs[0] <= 8 && runs[1] <= 8
  }

  /** A run of its own takes one, two or three bytes. */
  function LongItem(run: nat): seq<byte>
    requires 1 <= run <= 0x20_0000
  {
    var m := run - 1;
    if run <= 128 then [0x80 + m]
    else if run <= 0x2000 then [0x40 + m / 0x100, m % 0x100]
    else [0x60 + m / 0x10000, m / 0x100 % 0x100, m % 0x100]
  }

  function Encode(runs: seq<nat>): seq<byte>
    requires Writable(runs)
  {
    if runs == [] then []
    else if Shares(runs) then [(runs[0] - 1) * 8 + (runs[1] - 1)] + Encode(runs[2..])
    else LongItem(runs[0]) + Encode(runs[1..])
  }

  /** What is in front of a table does not matter behind it. */
  lemma {:induction false} ShiftRuns(front: seq<byte>, p: seq<byte>, pos: nat)
    requires pos <= |p| && Fits(p, pos)
    ensures Fits(front + p, |front| + pos) && Runs(front + p, |front| + pos) == Runs(p, pos)
    decreases |p| - pos
  {
    hide Length, Size;
    if pos < |p| {
      ShiftLength(front, p, pos);
      var next := pos + Size(p[pos]);
      hide Fits, Runs;
      FirstItem(p, pos);
      ShiftRuns(front, p, next);
      ItemInFront(front + p, |front| + pos);
    }
  }

  lemma FirstItem(p: seq<byte>, pos: nat)
    requires pos < |p| && Fits(p, pos)
    ensures Size(p[pos]) >= 1 && pos + Size(p[pos]) <= |p| && Fits(p, pos + Size(p[pos]))
    ensures Runs(p, pos) == ItemRuns(p, pos) + Runs(p, pos + Size(p[pos]))
  {}

  lemma ItemInFront(p: seq<byte>, pos: nat)
    requires pos < |p| && pos + Size(p[pos]) <= |p| && Fits(p, pos + Size(p[pos]))
    ensures Fits(p, pos) && Runs(p, pos) == ItemRuns(p, pos) + Runs(p, pos + Size(p[pos]))
  {}

  lemma ShiftLength(front: seq<byte>, p: seq<byte>, pos: nat)
    requires pos < |p| && pos + Size(p[pos]) <= |p|
    ensures (front + p)[|front| + pos] == p[pos] && 1 <= Size(p[pos])
    ensures ItemRuns(front + p, |front| + pos) == ItemRuns(p, pos)
  {}

  /** Decoding what was encoded gives the run lengths back. */
  lemma {:induction false} DecodeEncode(runs: seq<nat>)
    requires Writable(runs)
    ensures Fits(Encode(runs), 0) && Runs(Encode(runs), 0) == runs
    decreases |runs|
  {
    if runs != [] {
      var k := if Shares(runs) then 2 else 1;
      var item := if Shares(runs) then [(runs[0] - 1) * 8 + (runs[1] - 1)] else LongItem(runs[0]);
      assert IsItem(item, runs[..k]) by {
        hide IsItem;
        if Shares(runs) {
          ShortItemDecoded(runs[0], runs[1]);
          assert runs[..2] == [runs[0], runs[1]];
        } else {
          LongItemDecoded(runs[0]);
          assert runs[..1] == [runs[0]];
        }
      }
      DecodeEncode(runs[k..]);
      Behind(item, Encode(runs[k..]), runs[..k], runs[k..]);
      assert runs == runs[..k] + runs[k..];
      hide IsItem, LongItem;
    }
  }

  /** A table with one more item in front. */
  lemma Behind(item: seq<byte>, rest: seq<byte>, first: seq<nat>, runs: seq<nat>)
    requires IsItem(item, first) && Fits(rest, 0) && Runs(rest, 0) == runs
    ensures Fits(item + rest, 0) && Runs(item + rest, 0) == first + runs
  {
    hide IsItem, Length, Size, Fits, Runs;
    ShiftRuns(item, rest, 0);
    ItemFirst(item, rest, first);
  }

  /** The item is complete and stands for these runs, whatever comes behind. */
  ghost predicate IsItem(item: seq<byte>, runs: seq<nat>) {
    item != [] && Size(item[0]) == |item| && runs == ItemRuns(item, 0)
  }

  lemma ShortItemDecoded(run1: nat, run2: nat)
    requires 1 <= run1 <= 8 && 1 <= run2 <= 8
    ensures IsItem([(run1 - 1) * 8 + (run2 - 1)], [run1, run2])
  {
    var b := (run1 - 1) * 8 + (run2 - 1);
    assert b / 8 == run1 - 1 && b % 8 == run2 - 1;
  }

  lemma LongItemDecoded(run: nat)
    requires 1 <= run <= 0x20_0000
    ensures IsItem(LongItem(run), [run])
  {
    var m := run - 1;
    assert m / 0x100 * 0x100 + m % 0x100 == m;
    assert m / 0x10000 * 0x10000 + m / 0x100 % 0x100 * 0x100 + m % 0x100 == m;
  }

  lemma ItemFirst(item: seq<byte>, rest: seq<byte>, runs: seq<nat>)
    requires IsItem(item, runs) && Fits(item + rest, |item|)
    ensures Fits(item + rest, 0) && Runs(item + rest, 0) == runs + Runs(item + rest, |item|)
  {
    hide Length, Size, Fits, Runs, ItemRuns;
    FrontItem(item, rest);
    ItemInFront(item + rest, 0);
  }

  lemma FrontItem(item: seq<byte>, rest: seq<byte>)
    requires item != [] && Size(item[0]) == |item|
    ensures (item + rest)[0] == item[0] && ItemRuns(item + rest, 0) == ItemRuns(item, 0)
  {}

  /** The run lengths of a set from its i-th point on. */
  function RunLengths(s: seq<point>, i: nat): seq<nat>
    requires Increasing(s) && i <= |s|
    decreases |s| - i
  {
    if i == |s| then [] else [s[i] - if i == 0 then 0 else s[i - 1]] + RunLengths(s, i + 1)
  }

  /** Sets below the largest run length, without the character 0. */
  ghost predicate Tabular(s: seq<point>) {
    Compressed(s) && (s != [] ==> 1 <= s[0] && s[|s| - 1] <= 0x20_0000)
  }

  lemma {:induction false} LengthsWritable(s: seq<point>, i: nat)
    requires Tabular(s) && i <= |s|
    ensures Writable(RunLengths(s, i))
    ensures Total(RunLengths(s, i)) == if s == [] then 0 else s[|s| - 1] - if i == 0 then 0 else s[i - 1]
    decreases |s| - i
  {
    if i < |s| {
      LengthsWritable(s, i + 1);
    }
  }

  lemma CountBetween(s: seq<point>, i: nat, c: int)
    requires Strict(s) && i <= |s| && (i > 0 ==> s[i - 1] <= c) && (i < |s| ==> c < s[i])
    ensures Count(s, c) == i
  {
    hide Count;
    assert s == s[..i] + s[i..];
    CountParts(s[..i], s[i..], c);
  }

  lemma CountParts(s: seq<point>, t: seq<point>, c: int)
    requires forall k :: 0 <= k < |s| ==> s[k] <= c
    requires forall k :: 0 <= k < |t| ==> t[k] > c
    ensures Count(s + t, c) == |s|
  {
    CountConcat(s, t, c);
    CountAll(s, c);
    CountNone(t, c);
  }

  lemma {:induction false} LengthsMean(s: seq<point>, i: nat, c: int)
    requires Tabular(s) && i <= |s| && c >= if i == 0 then 0 else s[i - 1]
    ensures HasProperty(RunLengths(s, i), i % 2 == 1, if i == 0 then 0 else s[i - 1], c) <==> Member(s, c)
    decreases |s| - i
  {
    if i < |s| && c >= s[i] {
      LengthsMean(s, i + 1, c);
    } else {
      CountBetween(s, i, c);
    }
  }

  /** The table of a set means the set: what linear decoding gives is its list. */
  lemma TableOfSet(s: seq<point>, pts: seq<point>)
    requires Tabular(s)
    ensures Writable(RunLengths(s, 0))
    ensures TableOk(Encode(RunLengths(s, 0)))
    ensures forall c: int :: InTable(Encode(RunLengths(s, 0)), c) <==> Member(s, c)
    ensures Compressed(pts) && (forall c: int :: Member(pts, c) <==> InTable(Encode(RunLengths(s, 0)), c)) ==> pts == s
  {
    LengthsWritable(s, 0);
    DecodeEncode(RunLengths(s, 0));
    hide Member;
    forall c: int
      ensures InTable(Encode(RunLengths(s, 0)), c) <==> Member(s, c)
    {
      if c >= 0 {
        LengthsMean(s, 0, c);
      } else {
        NoneAtEnds(s, c);
      }
    }
    if Compressed(pts) && forall c: int :: Member(pts, c) <==> InTable(Encode(RunLengths(s, 0)), c) {
      CompressedUnique(pts, s);
    }
  }

  lemma NoneAtEnds(s: seq<point>, c: int)
    requires c < 0
    ensures !Member(s, c)
  {
    CountNone(s, c);
  }

  /** An entry of the index: the low 21 bits are the character, the rest the offset behind a multiple of 32. */
  function Entry(code: nat, offset: nat): (e: seq<byte>)
    requires code < 0x20_0000 && offset < 8
    ensures |e| == 3
  {
    var v := code + offset * 0x20_0000;
    [v % 0x100, v / 0x100 % 0x100, v / 0x10000]
  }

  /** The index of blocks that begin at the given positions and characters, with its last entry. */
  function WriteIndex(marks: seq<(nat, nat)>, i: nat, total: nat): (index: seq<byte>)
    requires i <= |marks| && total < 0x20_0000
    requires forall j :: i <= j < |marks| ==> (j + 1) * 32 <= marks[j].0 < (j + 1) * 32 + 8 && marks[j].1 < 0x20_0000
    ensures |index| == 3 * (|marks| - i + 1)
    decreases |marks| - i
  {
    if i == |marks| then Entry(total, 0)
    else Entry(marks[i].1, marks[i].0 - (i + 1) * 32) + WriteIndex(marks, i + 1, total)
  }

  lemma EntryRead(front: seq<byte>, code: nat, offset: nat, back: seq<byte>, i: nat)
    requires code < 0x20_0000 && offset < 8 && |front| == 3 * i
    ensures
      var index := front + Entry(code, offset) + back;
      BlockCode(index, i) == code && BlockPos(index, i) == (i + 1) * 32 + offset
    ensures offset == 0 ==> Le24(front + Entry(code, offset) + back, i) == code
  {
    var v := code + offset * 0x20_0000;
    var index := front + Entry(code, offset) + back;
    assert index[3 * i] == v % 0x100 && index[3 * i + 1] == v / 0x100 % 0x100 && index[3 * i + 2] == v / 0x10000;
    assert Le24(index, i) == v;
  }

  /** The blocks that are marked. */
  ghost predicate Marked(p: seq<byte>, marks: seq<(nat, nat)>)
    requires Fits(p, 0)
  {
    forall i :: 0 <= i < |marks| ==>
      && (i + 1) * 32 <= marks[i].0 < (i + 1) * 32 + 8 && marks[i].1 < 0x20_0000
      && Boundary(p, marks[i].0, marks[i].1)
  }

  /** What the entries from i on say, behind any entries in front of them. */
  lemma {:induction false} IndexRead(front: seq<byte>, marks: seq<(nat, nat)>, i: nat, total: nat, j: nat)
    requires i <= j <= |marks| && total < 0x20_0000 && |front| == 3 * i
    requires forall k :: i <= k < |marks| ==> (k + 1) * 32 <= marks[k].0 < (k + 1) * 32 + 8 && marks[k].1 < 0x20_0000
    ensures
      var index := front + WriteIndex(marks, i, total);
      && (j < |marks| ==> BlockCode(index, j) == marks[j].1 && BlockPos(index, j) == marks[j].0)
      && (j == |marks| ==> BlockCode(index, j) == Le24(index, j) == total)
    decreases |marks| - i
  {
    hide Entry, BlockCode, BlockPos, Le24;
    var index := front + WriteIndex(marks, i, total);
    var code := if i == |marks| then total else marks[i].1;
    var offset := if i == |marks| then 0 else marks[i].0 - (i + 1) * 32;
    var e := Entry(code, offset);
    var back := if i == |marks| then [] else WriteIndex(marks, i + 1, total);
    assert index == front + e + back;
    if i == j {
      EntryRead(front, code, offset, back, i);
    } else {
      IndexRead(front + e, marks, i + 1, total, j);
    }
  }

  /** An index written for the blocks of a table leads the look-up. */
  lemma IndexOfTable(p: seq<byte>, marks: seq<(nat, nat)>)
    requires TableOk(p) && Total(Runs(p, 0)) < 0x20_0000 && Marked(p, marks)
    ensures IndexOk(p, WriteIndex(marks, 0, Total(Runs(p, 0))))
  {
    var total := Total(Runs(p, 0));
    var index := WriteIndex(marks, 0, total);
    assert [] + index == index;
    hide Le24, BlockCode, BlockPos, WriteIndex, Boundary, Runs, Total, Fits;
    forall j: nat | j <= |marks|
      ensures EntryOk(index, marks, j, total)
    {
      IndexRead([], marks, 0, total, j);
    }
    EntriesOk(p, index, marks);
  }

  /** What the j-th entry of an index says. */
  ghost predicate EntryOk(index: seq<byte>, marks: seq<(nat, nat)>, j: nat, total: nat)
    requires j <= |marks| && |index| == 3 * |marks| + 3
  {
    if j < |marks| then BlockCode(index, j) == marks[j].1 && BlockPos(index, j) == marks[j].0
    else BlockCode(index, j) == Le24(index, j) == total
  }

  lemma EntriesOk(p: seq<byte>, index: seq<byte>, marks: seq<(nat, nat)>)
    requires TableOk(p) && Total(Runs(p, 0)) < 0x20_0000 && Marked(p, marks) && |index| == 3 * |marks| + 3
    requires forall j: nat :: j <= |marks| ==> EntryOk(index, marks, j, Total(Runs(p, 0)))
    ensures IndexOk(p, index)
  {
    hide Le24, BlockCode, BlockPos, Boundary, Runs, Total, Fits;
    var n := |marks|;
    assert EntryOk(index, marks, n, Total(Runs(p, 0))) && EntryOk(index, marks, 0, Total(Runs(p, 0)));
    if n > 0 {
      BoundaryBelow(p, marks[0].0, marks[0].1);
    }
    forall i | 0 <= i < n
      ensures Boundary(p, BlockPos(index, i), BlockCode(index, i))
    {
      assert EntryOk(index, marks, i, Total(Runs(p, 0)));
    }
  }

  lemma BoundaryBelow(p: seq<byte>, pos: int, code: int)
    requires Fits(p, 0) && Boundary(p, pos, code)
    ensures code <= Total(Runs(p, 0))
  {
    var head: seq<nat> :| Runs(p, 0) == head + Runs(p, pos) && |head| % 2 == 0 && Total(head) == code;
    TotalConcat(head, Runs(p, pos));
  }
}
