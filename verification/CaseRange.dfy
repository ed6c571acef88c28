/** The image of a set of characters under case folding (libunicode.c unicode_case1 and cr_regexp_canonicalize). */
module CaseRange {
  import opened CharRanges
  import opened CaseFold

  // The characters that change, as a set.

  /** c is selected in the run, below its place n. */
  ghost predicate Chosen(run: Run, c: int, n: int, m: CaseMask) {
    InRun(run, c) && c - run.code < n && Selected(run, c - run.code, m)
  }

  ghost predicate InMaskUpTo(t: Table, c: int, m: CaseMask, n: nat)
    requires n <= |t.runs|
  {
    exists i :: 0 <= i < n && Chosen(t.runs[i], c, t.runs[i].len, m)
  }

  lemma MaskWhole(t: Table, c: int, m: CaseMask)
    ensures InMaskUpTo(t, c, m, |t.runs|) <==> InMask(t, c, m)
  {
    if InMask(t, c, m) {
      var i :| 0 <= i < |t.runs| && InRun(t.runs[i], c) && Selected(t.runs[i], c - t.runs[i].code, m);
      assert Chosen(t.runs[i], c, t.runs[i].len, m);
    }
  }

  lemma MaskStep(t: Table, c: int, m: CaseMask, n: nat)
    requires n < |t.runs|
    ensures InMaskUpTo(t, c, m, n + 1) <==> InMaskUpTo(t, c, m, n) || Chosen(t.runs[n], c, t.runs[n].len, m)
  {
    if InMaskUpTo(t, c, m, n) {
      var i :| 0 <= i < n && Chosen(t.runs[i], c, t.runs[i].len, m);
      assert 0 <= i < n + 1 && Chosen(t.runs[i], c, t.runs[i].len, m);
    }
  }

  /** The list pts with the characters chosen from one run up to place n. */
  ghost predicate WithRun(out: seq<point>, pts: seq<point>, run: Run, n: int, m: CaseMask) {
    forall c: int :: Member(out, c) <==> Member(pts, c) || Chosen(run, c, n, m)
  }

  /** A proper list below the bound. */
  ghost predicate Below(pts: seq<point>, bound: int) {
    Proper(pts) && AllUpTo(pts, bound)
  }

  lemma BelowGrows(pts: seq<point>, bound: int, x: point, y: point)
    requires Below(pts, bound) && bound <= x <= y
    ensures Below(pts + [x, y], y)
  {}

  /** One more interval of chosen characters. */
  lemma IntervalAdded(out: seq<point>, pts: seq<point>, run: Run, n: int, m: CaseMask, x: point, y: point, n': int)
    requires WithRun(out, pts, run, n, m) && Below(out, x) && x <= y && n <= n'
    requires forall c: int :: Chosen(run, c, n', m) <==> Chosen(run, c, n, m) || x <= c < y
    ensures WithRun(out + [x, y], pts, run, n', m) && Below(out + [x, y], y)
  {
    BelowGrows(out, x, x, y);
    var out' := out + [x, y];
    forall c: int
      ensures Member(out', c) <==> Member(pts, c) || Chosen(run, c, n', m)
    {
      PairMembers(out, x, y, c);
      assert Member(out, c) <==> Member(pts, c) || Chosen(run, c, n, m);
      assert Chosen(run, c, n', m) <==> Chosen(run, c, n, m) || x <= c < y;
    }
  }

  lemma NothingChosen(pts: seq<point>, run: Run, m: CaseMask)
    ensures WithRun(pts, pts, run, 0, m)
    ensures !Masked(run.typ, m) ==> WithRun(pts, pts, run, run.len, m)
  {}

  lemma BelowRun(pts: seq<point>, bound: int, bound': int)
    requires Below(pts, bound) && bound <= bound'
    ensures Below(pts, bound')
  {}

  /** The body of the loop of unicode_case1: one run. */
  method AddRun(cr: CharRange, t: Table, run: Run, m: CaseMask)
    requires RunOk(t, run) && Below(cr.points, run.code)
    modifies cr
    ensures WithRun(cr.points, old(cr.points), run, run.len, m) && Below(cr.points, run.code + run.len)
  {
    hide WithRun, Below, Member, Masked;
    ghost var pts := cr.points;
    NothingChosen(pts, run, m);
    BelowRun(pts, run.code, run.code + run.len);
    if Masked(run.typ, m) {
      if run.typ.UL? && !Both(m) {
        var code := run.code + if m.u then 1 else 0;
        var i := 0;
        BelowRun(pts, run.code, code);
        while i < run.len
          invariant 0 <= i <= run.len && i % 2 == 0 && WithRun(cr.points, pts, run, i, m)
          invariant Below(cr.points, if i == 0 then code else code + i - 1)
        {
          BelowRun(cr.points, if i == 0 then code else code + i - 1, code + i);
          AlternateChosen(t, run, m, i, code);
          IntervalAdded(cr.points, pts, run, i, m, code + i, code + i + 1, i + 2);
          cr.AddInterval(code + i, code + i + 1);
          i := i + 2;
        }
        BelowRun(cr.points, code + i - 1, run.code + run.len);
      } else if run.typ.LSU? && !Both(m) {
        AddThree(cr, t, run, m);
      } else {
        AllChosen(run, m);
        IntervalAdded(pts, pts, run, 0, m, run.code, run.code + run.len, run.len);
        cr.AddInterval(run.code, run.code + run.len);
      }
    }
  }

  /** A run of an upper case character, a title case character and a lower case character. */
  method AddThree(cr: CharRange, t: Table, run: Run, m: CaseMask)
    requires RunOk(t, run) && run.typ.LSU? && Masked(run.typ, m) && !Both(m) && Below(cr.points, run.code)
    modifies cr
    ensures WithRun(cr.points, old(cr.points), run, run.len, m) && Below(cr.points, run.code + run.len)
  {
    hide WithRun, Below, Member, Masked;
    ghost var pts := cr.points;
    var code := run.code;
    NothingChosen(pts, run, m);
    ThreeChosen(run, m);
    if !m.u {
      IntervalAdded(cr.points, pts, run, 0, m, code, code + 1, 1);
      cr.AddInterval(code, code + 1);
    } else {
      BelowRun(pts, code, code + 1);
      NothingFirst(pts, run, m);
    }
    IntervalAdded(cr.points, pts, run, 1, m, code + 1, code + 2, 2);
    cr.AddInterval(code + 1, code + 2);
    if m.u {
      IntervalAdded(cr.points, pts, run, 2, m, code + 2, code + 3, 3);
      cr.AddInterval(code + 2, code + 3);
    } else {
      BelowRun(cr.points, code + 2, code + 3);
      NothingLast(cr.points, pts, run, m);
    }
  }

  lemma ThreeChosen(run: Run, m: CaseMask)
    requires run.typ.LSU? && run.len == 3 && Masked(run.typ, m) && !Both(m)
    ensures forall c: int :: Chosen(run, c, 1, m) <==> Chosen(run, c, 0, m) || (!m.u && run.code <= c < run.code + 1)
    ensures forall c: int :: Chosen(run, c, 2, m) <==> Chosen(run, c, 1, m) || run.code + 1 <= c < run.code + 2
    ensures forall c: int :: Chosen(run, c, 3, m) <==> Chosen(run, c, 2, m) || (m.u && run.code + 2 <= c < run.code + 3)
  {}

  lemma NothingFirst(pts: seq<point>, run: Run, m: CaseMask)
    requires m.u && forall c: int ::
               Chosen(run, c, 1, m) <==> Chosen(run, c, 0, m) || (!m.u && run.code <= c < run.code + 1)
    ensures WithRun(pts, pts, run, 1, m)
  {
    NothingChosen(pts, run, m);
  }

  lemma NothingLast(out: seq<point>, pts: seq<point>, run: Run, m: CaseMask)
    requires !m.u && WithRun(out, pts, run, 2, m)
    requires forall c: int ::
               Chosen(run, c, 3, m) <==> Chosen(run, c, 2, m) || (m.u && run.code + 2 <= c < run.code + 3)
    ensures WithRun(out, pts, run, 3, m)
  {}

  lemma AlternateChosen(t: Table, run: Run, m: CaseMask, i: nat, code: int)
    requires RunOk(t, run) && run.typ.UL? && Masked(run.typ, m) && !Both(m) && i % 2 == 0 && i < run.len
    requires code == run.code + if m.u then 1 else 0
    ensures forall c: int :: Chosen(run, c, i + 2, m) <==> Chosen(run, c, i, m) || code + i <= c < code + i + 1
  {
    hide Selected;
    forall c: int
      ensures Chosen(run, c, i + 2, m) <==> Chosen(run, c, i, m) || code + i <= c < code + i + 1
    {
      AlternateSelected(run, c - run.code, m, i);
    }
  }

  lemma AlternateSelected(run: Run, a: int, m: CaseMask, i: nat)
    requires run.typ.UL? && Masked(run.typ, m) && !Both(m) && i % 2 == 0 && i < run.len && run.len % 2 == 0
    ensures i + 2 <= run.len && (i <= a < i + 2 ==> (Selected(run, a, m) <==> a == i + if m.u then 1 else 0))
  {}

  lemma AllChosen(run: Run, m: CaseMask)
    requires Masked(run.typ, m) && (Both(m) || (!run.typ.UL? && !run.typ.LSU?))
    ensures forall c: int :: Chosen(run, c, run.len, m) <==> Chosen(run, c, 0, m) || run.code <= c < run.code + run.len
  {}

  /** unicode_case1: the characters that the conversions of the mask change. */
  method UnicodeCase1(cr: CharRange, t: Table, m: CaseMask)
    requires WellFormed(t) && cr.points == []
    modifies cr
    ensures Proper(cr.points) && forall c: int :: Member(cr.points, c) <==> InMask(t, c, m)
  {
    hide Member, WithRun, Below, Selected;
    if m == CaseMask(false, false, false) {
      NoMask(t, m);
      return;
    }
    var idx := 0;
    StartMask(t, m);
    while idx < |t.runs|
      invariant 0 <= idx <= |t.runs| && Below(cr.points, if idx < |t.runs| then t.runs[idx].code else 0x20080)
      invariant MaskSoFar(cr.points, t, m, idx)
    {
      ghost var pts := cr.points;
      AddRun(cr, t, t.runs[idx], m);
      MaskGrows(cr.points, pts, t, m, idx);
      BelowRun(cr.points, t.runs[idx].code + t.runs[idx].len,
               if idx + 1 < |t.runs| then t.runs[idx + 1].code else 0x20080);
      idx := idx + 1;
    }
    MaskDone(cr.points, t, m, 0x20080);
  }

  ghost predicate MaskSoFar(pts: seq<point>, t: Table, m: CaseMask, n: nat) {
    n <= |t.runs| && forall c: int :: Member(pts, c) <==> InMaskUpTo(t, c, m, n)
  }

  lemma NoMask(t: Table, m: CaseMask)
    requires m == CaseMask(false, false, false)
    ensures Proper([]) && forall c: int :: Member([], c) <==> InMask(t, c, m)
  {}

  lemma StartMask(t: Table, m: CaseMask)
    requires WellFormed(t)
    ensures MaskSoFar([], t, m, 0) && Below([], t.runs[0].code)
  {}

  lemma MaskGrows(out: seq<point>, pts: seq<point>, t: Table, m: CaseMask, n: nat)
    requires n < |t.runs| && MaskSoFar(pts, t, m, n) && WithRun(out, pts, t.runs[n], t.runs[n].len, m)
    ensures MaskSoFar(out, t, m, n + 1)
  {
    forall c: int
      ensures Member(out, c) <==> InMaskUpTo(t, c, m, n + 1)
    {
      MaskStep(t, c, m, n);
      assert Member(pts, c) <==> InMaskUpTo(t, c, m, n);
    }
  }

  lemma MaskDone(pts: seq<point>, t: Table, m: CaseMask, bound: int)
    requires MaskSoFar(pts, t, m, |t.runs|) && Below(pts, bound)
    ensures Proper(pts) && forall c: int :: Member(pts, c) <==> InMask(t, c, m)
  {
    forall c: int
      ensures Member(pts, c) <==> InMask(t, c, m)
    {
      MaskWhole(t, c, m);
      assert Member(pts, c) <==> InMaskUpTo(t, c, m, |t.runs|);
    }
  }

  // The image.

  /** d is the folding of a character of the set below the bound. */
  ghost predicate Image(t: Table, isUnicode: bool, pts: seq<point>, bound: int, d: int)
    requires WellFormed(t)
  {
    exists c: int :: c < bound && Member(pts, c) && Folded(t, c, isUnicode) == d
  }

  /** The intervals put out, with the one at hand, are the image of the characters below the bound. */
  ghost predicate Emitted(out: seq<point>, dStart: int, dEnd: int, t: Table, isUnicode: bool, pts: seq<point>,
                          bound: int)
    requires WellFormed(t)
  {
    && |out| % 2 == 0
    && forall d: int ::
        Covered(out, d) || (dStart != UINT32_MAX && dStart <= d < dEnd) <==> Image(t, isUnicode, pts, bound, d)
  }

  ghost predicate NoMembers(pts: seq<point>, from: int, end: int) {
    forall c: int :: from <= c < end ==> !Member(pts, c)
  }

  /** Where there are no members the image does not grow. */
  lemma EmittedSkips(out: seq<point>, dStart: int, dEnd: int, t: Table, isUnicode: bool, pts: seq<point>, from: int,
                     end: int)
    requires WellFormed(t) && Emitted(out, dStart, dEnd, t, isUnicode, pts, from) && from <= end
             && NoMembers(pts, from, end)
    ensures Emitted(out, dStart, dEnd, t, isUnicode, pts, end)
  {
    forall d: int
      ensures Image(t, isUnicode, pts, from, d) <==> Image(t, isUnicode, pts, end, d)
    {
      if Image(t, isUnicode, pts, from, d) {
        var c: int :| c < from && Member(pts, c) && Folded(t, c, isUnicode) == d;
        assert c < end && Member(pts, c) && Folded(t, c, isUnicode) == d;
      }
      if Image(t, isUnicode, pts, end, d) {
        var c: int :| c < end && Member(pts, c) && Folded(t, c, isUnicode) == d;
        assert c < from;
      }
    }
  }

  lemma ImageStep(t: Table, isUnicode: bool, pts: seq<point>, c: int, d: int)
    requires WellFormed(t) && Member(pts, c)
    ensures Image(t, isUnicode, pts, c + 1, d) <==> Image(t, isUnicode, pts, c, d) || d == Folded(t, c, isUnicode)
  {
    if Image(t, isUnicode, pts, c, d) {
      var b: int :| b < c && Member(pts, b) && Folded(t, b, isUnicode) == d;
      assert b < c + 1 && Member(pts, b) && Folded(t, b, isUnicode) == d;
    }
    if d == Folded(t, c, isUnicode) {
      assert c < c + 1 && Member(pts, c) && Folded(t, c, isUnicode) == d;
    }
  }

  /** One character: merged with the interval at hand, or after that interval is put out. */
  lemma EmittedStep(out: seq<point>, dStart: point, dEnd: point, t: Table, isUnicode: bool, pts: seq<point>, c: int,
                    n: int, d: point, out': seq<point>, dStart': point, dEnd': point)
    requires WellFormed(t) && Emitted(out, dStart, dEnd, t, isUnicode, pts, c) && Member(pts, c)
             && Folded(t, c, isUnicode) == d < UINT32_MAX
    requires n == c + 1 && (dStart != UINT32_MAX ==> dStart < dEnd)
    requires
      || (dStart == UINT32_MAX && out' == out && dStart' == d && dEnd' == d + 1)
      || (dStart != UINT32_MAX && dEnd == d && out' == out && dStart' == dStart && dEnd' == d + 1)
      || (dStart != UINT32_MAX && dEnd != d && out' == out + [dStart, dEnd] && dStart' == d && dEnd' == d + 1)
    ensures Emitted(out', dStart', dEnd', t, isUnicode, pts, n)
  {
    hide Covered, Member, Image, Folded;
    forall e: int
      ensures Covered(out', e) || (dStart' != UINT32_MAX && dStart' <= e < dEnd') <==> Image(t, isUnicode, pts, n, e)
    {
      ImageStep(t, isUnicode, pts, c, e);
      CoveredPair(out, dStart, dEnd, e);
      assert Covered(out, e) || (dStart != UINT32_MAX && dStart <= e < dEnd) <==> Image(t, isUnicode, pts, c, e);
    }
  }

  /** Every member of the list is in some run. */
  ghost predicate AllListed(t: Table, pts: seq<point>) {
    forall c: int :: Member(pts, c) ==> Listed(t, c)
  }

  /** The runs before idx end before c. */
  ghost predicate Behind(t: Table, idx: nat, c: int) {
    idx < |t.runs| && forall i :: 0 <= i < idx ==> t.runs[i].code + t.runs[i].len <= c
  }

  /** The search for the run of the next character goes on where the last one stopped. */
  method NextRun(t: Table, idx0: nat, c: int) returns (idx: nat)
    requires WellFormed(t) && Behind(t, idx0, c) && Listed(t, c)
    ensures Behind(t, idx, c) && InRun(t.runs[idx], c)
  {
    ghost var k :| 0 <= k < |t.runs| && InRun(t.runs[k], c);
    idx := idx0;
    while !InRun(t.runs[idx], c)
      invariant idx <= k && Behind(t, idx, c)
      decreases k - idx
    {
      idx := idx + 1;
    }
  }

  lemma GapEmpty(pts: seq<point>, i: nat)
    requires Compressed(pts) && i % 2 == 0 && i <= |pts|
    ensures NoMembers(pts, if i == 0 then 0 else pts[i - 1], if i < |pts| then pts[i] else UINT32_MAX)
  {
    forall c: int | (if i == 0 then 0 else pts[i - 1]) <= c < if i < |pts| then pts[i] else UINT32_MAX
      ensures !Member(pts, c)
    {
      CoveredMember(pts, c);
      forall k
        ensures !InInterval(pts, k, c)
      {
        InGap(pts, i, k, c);
      }
    }
  }

  lemma InGap(pts: seq<point>, i: nat, k: int, c: int)
    requires Compressed(pts) && i % 2 == 0 && i <= |pts| && (i > 0 ==> pts[i - 1] <= c) && (i < |pts| ==> c < pts[i])
    ensures !InInterval(pts, k, c)
  {
    if 0 <= k && 2 * k + 1 < |pts| {
      if 2 * k < i {
        assert pts[2 * k + 1] <= pts[i - 1];
      } else {
        assert pts[i] <= pts[2 * k];
      }
    }
  }

  lemma NoneAtEnds(pts: seq<point>)
    requires Compressed(pts)
    ensures forall c: int :: Member(pts, c) ==> 0 <= c < UINT32_MAX
  {
    forall c: int | Member(pts, c)
      ensures 0 <= c < UINT32_MAX
    {
      CoveredMember(pts, c);
      var k :| InInterval(pts, k, c);
    }
  }

  lemma MemberInside(pts: seq<point>, i: nat, c: int)
    requires Compressed(pts) && i % 2 == 0 && i + 1 < |pts| && pts[i] <= c < pts[i + 1]
    ensures Member(pts, c)
  {
    CoveredMember(pts, c);
    assert InInterval(pts, i / 2, c);
  }

  /** No interval put out is empty, nor is the one at hand. */
  ghost predicate Whole(out: seq<point>, dStart: int, dEnd: int) {
    |out| % 2 == 0 && NoneEmpty(Pairs(out)) && (dStart != UINT32_MAX ==> dStart < dEnd)
  }

  lemma WholeGrows(out: seq<point>, dStart: point, dEnd: point)
    requires Whole(out, dStart, dEnd) && dStart != UINT32_MAX
    ensures |out + [dStart, dEnd]| % 2 == 0 && NoneEmpty(Pairs(out + [dStart, dEnd]))
  {
    PairsSnoc(out, dStart, dEnd);
  }

  lemma EmittedStart(t: Table, isUnicode: bool, pts: seq<point>)
    requires WellFormed(t) && Compressed(pts)
    ensures Emitted([], UINT32_MAX, UINT32_MAX, t, isUnicode, pts, 0) && Whole([], UINT32_MAX, UINT32_MAX)
            && Behind(t, 0, 0)
  {
    NoneAtEnds(pts);
  }

  lemma EmittedEnd(out: seq<point>, dStart: point, dEnd: point, t: Table, isUnicode: bool, pts: seq<point>,
                   out': seq<point>)
    requires WellFormed(t) && Compressed(pts) && Emitted(out, dStart, dEnd, t, isUnicode, pts, UINT32_MAX)
             && Whole(out, dStart, dEnd)
    requires out' == if dStart != UINT32_MAX then out + [dStart, dEnd] else out
    ensures |out'| % 2 == 0 && NoneEmpty(Pairs(out'))
            && forall d: int :: Covered(out', d) <==> Image(t, isUnicode, pts, UINT32_MAX, d)
  {
    if dStart != UINT32_MAX {
      WholeGrows(out, dStart, dEnd);
    }
    forall d: int
      ensures Covered(out', d) <==> Image(t, isUnicode, pts, UINT32_MAX, d)
    {
      CoveredPair(out, dStart, dEnd, d);
      assert Covered(out, d) || (dStart != UINT32_MAX && dStart <= d < dEnd)
             <==> Image(t, isUnicode, pts, UINT32_MAX, d);
    }
  }

  lemma BehindLater(t: Table, idx: nat, c: int, c': int)
    requires Behind(t, idx, c) && c <= c'
    ensures Behind(t, idx, c')
  {}

  /** One character of the loop: tries to merge with the current interval. */
  method Emit(result: CharRange, dStart: point, dEnd: point, d: point) returns (dStart': point, dEnd': point)
    requires Whole(result.points, dStart, dEnd) && d < UINT32_MAX
    modifies result
    ensures dEnd' == d + 1 && Whole(result.points, dStart', dEnd') && dStart' < UINT32_MAX
    ensures
      var out, out' := old(result.points), result.points;
      || (dStart == UINT32_MAX && out' == out && dStart' == d)
      || (dStart != UINT32_MAX && dEnd == d && out' == out && dStart' == dStart)
      || (dStart != UINT32_MAX && dEnd != d && out' == out + [dStart, dEnd] && dStart' == d)
  {
    if dStart == UINT32_MAX {
      dStart', dEnd' := d, d + 1;
    } else if dEnd == d {
      dStart', dEnd' := dStart, dEnd + 1;
    } else {
      WholeGrows(result.points, dStart, dEnd);
      result.AddInterval(dStart, dEnd);
      dStart', dEnd' := d, d + 1;
    }
  }

  /** The characters of one interval. */
  method MapInterval(t: Table, pts: seq<point>, i: nat, isUnicode: bool, result: CharRange, dStart0: point,
                     dEnd0: point, idx0: nat)
    returns (dStart: point, dEnd: point, idx: nat)
    requires WellFormed(t) && Compressed(pts) && AllListed(t, pts) && i % 2 == 0 && i + 1 < |pts|
    requires Whole(result.points, dStart0, dEnd0) && Behind(t, idx0, pts[i])
    requires Emitted(result.points, dStart0, dEnd0, t, isUnicode, pts, pts[i])
    modifies result
    ensures Whole(result.points, dStart, dEnd) && Behind(t, idx, pts[i + 1])
    ensures Emitted(result.points, dStart, dEnd, t, isUnicode, pts, pts[i + 1])
  {
    hide WellFormed, Compressed, AllListed, Whole, Behind, Emitted, Member, Folded;
    dStart, dEnd, idx := dStart0, dEnd0, idx0;
    PointsOrdered(pts, i);
    var c: int := pts[i];
    while c < pts[i + 1]
      invariant pts[i] <= c <= pts[i + 1] && Whole(result.points, dStart, dEnd) && Behind(t, idx, c)
      invariant Emitted(result.points, dStart, dEnd, t, isUnicode, pts, c)
    {
      MemberInside(pts, i, c);
      IsListed(t, pts, c);
      idx := NextRun(t, idx, c);
      RunInTable(t, idx, c, isUnicode);
      var d := LreCaseFoldingEntry(t, c, idx, isUnicode);
      ghost var out, start, end := result.points, dStart, dEnd;
      WholeRange(out, start, end);
      dStart, dEnd := Emit(result, dStart, dEnd, d);
      EmittedStep(out, start, end, t, isUnicode, pts, c, c + 1, d, result.points, dStart, dEnd);
      BehindLater(t, idx, c, c + 1);
      c := c + 1;
    }
  }

  lemma PointsOrdered(pts: seq<point>, i: nat)
    requires Compressed(pts) && i + 1 < |pts|
    ensures pts[i] < pts[i + 1]
  {}

  lemma IsListed(t: Table, pts: seq<point>, c: int)
    requires AllListed(t, pts) && Member(pts, c)
    ensures Listed(t, c)
  {}

  lemma WholeRange(out: seq<point>, dStart: int, dEnd: int)
    requires Whole(out, dStart, dEnd)
    ensures dStart != UINT32_MAX ==> dStart < dEnd
  {}

  lemma RunInTable(t: Table, idx: nat, c: int, isUnicode: bool)
    requires WellFormed(t) && Behind(t, idx, c) && InRun(t.runs[idx], c)
    ensures RunOk(t, t.runs[idx]) && 0 <= FoldingEntry(t, c, t.runs[idx], isUnicode) < UINT32_MAX
    ensures FoldingEntry(t, c, t.runs[idx], isUnicode) == Folded(t, c, isUnicode)
  {
    FoldedRange(t, c, t.runs[idx], isUnicode);
    FoldedBy(t, c, idx, isUnicode);
  }

  /** The loop over the characters that change. */
  method MapPoints(t: Table, pts: seq<point>, isUnicode: bool) returns (result: CharRange)
    requires WellFormed(t) && Compressed(pts) && AllListed(t, pts)
    ensures fresh(result) && |result.points| % 2 == 0 && NoneEmpty(Pairs(result.points))
    ensures forall d: int :: Covered(result.points, d) <==> Image(t, isUnicode, pts, UINT32_MAX, d)
  {
    hide WellFormed, Compressed, AllListed, Whole, Behind, Emitted, Member, NoMembers, Covered, Image;
    result := new CharRange();
    var dStart: point, dEnd: point := UINT32_MAX, UINT32_MAX;
    var idx, i := 0, 0;
    EvenPoints(pts);
    EmittedStart(t, isUnicode, pts);
    while i < |pts|
      invariant 0 <= i <= |pts| && i % 2 == 0 && Whole(result.points, dStart, dEnd)
      invariant Behind(t, idx, LastEnd(pts, i))
                && Emitted(result.points, dStart, dEnd, t, isUnicode, pts, LastEnd(pts, i))
    {
      GapEmpty(pts, i);
      GapOrdered(pts, i);
      EmittedSkips(result.points, dStart, dEnd, t, isUnicode, pts, LastEnd(pts, i), pts[i]);
      BehindLater(t, idx, LastEnd(pts, i), pts[i]);
      dStart, dEnd, idx := MapInterval(t, pts, i, isUnicode, result, dStart, dEnd, idx);
      i := i + 2;
    }
    GapEmpty(pts, i);
    GapOrdered(pts, i);
    EmittedSkips(result.points, dStart, dEnd, t, isUnicode, pts, LastEnd(pts, i), UINT32_MAX);
    ghost var out := result.points;
    if dStart != UINT32_MAX {
      result.AddInterval(dStart, dEnd);
    }
    EmittedEnd(out, dStart, dEnd, t, isUnicode, pts, result.points);
  }

  /** Where the interval before position i ends. */
  ghost function LastEnd(pts: seq<point>, i: nat): point
    requires i <= |pts|
  {
    if i == 0 then 0 else pts[i - 1]
  }

  lemma EvenPoints(pts: seq<point>)
    requires Compressed(pts)
    ensures |pts| % 2 == 0
  {}

  lemma GapOrdered(pts: seq<point>, i: nat)
    requires Compressed(pts) && i <= |pts|
    ensures LastEnd(pts, i) <= if i < |pts| then pts[i] else UINT32_MAX
  {}

  /** What the three lists make together. */
  lemma ImageWhole(t: Table, isUnicode: bool, pts: seq<point>, inter: seq<point>, sub: seq<point>, d: int)
    requires WellFormed(t) && AgreesOnAscii(t, isUnicode) && Proper(pts) && Compressed(inter) && Compressed(sub)
    requires forall c: int :: Member(inter, c) <==> InMask(t, c, MaskOf(isUnicode)) && Member(pts, c)
    requires forall c: int :: Member(sub, c) <==> !InMask(t, c, MaskOf(isUnicode)) && Member(pts, c)
    ensures Image(t, isUnicode, inter, UINT32_MAX, d) || Member(sub, d) <==> IsImage(t, isUnicode, pts, d)
  {
    NoneAtEnds(inter);
    NoneAtEnds(sub);
    if Image(t, isUnicode, inter, UINT32_MAX, d) {
      var c: int :| c < UINT32_MAX && Member(inter, c) && Folded(t, c, isUnicode) == d;
      CanonicalFolded(t, c, isUnicode);
      assert Member(pts, c) && Canonical(t, c, isUnicode) == d;
    }
    if Member(sub, d) {
      UnmaskedStays(t, d, isUnicode);
      CanonicalFolded(t, d, isUnicode);
      assert Member(pts, d) && Canonical(t, d, isUnicode) == d;
    }
    if IsImage(t, isUnicode, pts, d) {
      var c: int :| Member(pts, c) && Canonical(t, c, isUnicode) == d;
      if InMask(t, c, MaskOf(isUnicode)) {
        assert Member(inter, c);
        CanonicalFolded(t, c, isUnicode);
      } else {
        assert Member(sub, c);
        UnmaskedStays(t, c, isUnicode);
        CanonicalFolded(t, c, isUnicode);
      }
    }
  }

  /** d is the canonical form of a character of the set. */
  ghost predicate IsImage(t: Table, isUnicode: bool, pts: seq<point>, d: int)
    requires WellFormed(t)
  {
    exists c: int :: Member(pts, c) && Canonical(t, c, isUnicode) == d
  }

  lemma MaskListed(t: Table, isUnicode: bool, inter: seq<point>)
    requires forall c: int :: Member(inter, c) ==> InMask(t, c, MaskOf(isUnicode))
    ensures AllListed(t, inter)
  {}

  /** cr_regexp_canonicalize: the set becomes its image under canonicalization. */
  method CrRegexpCanonicalize(cr: CharRange, t: Table, isUnicode: bool)
    requires WellFormed(t) && AgreesOnAscii(t, isUnicode) && Proper(cr.points)
    modifies cr
    ensures Compressed(cr.points)
    ensures forall d: int :: Member(cr.points, d) <==> IsImage(t, isUnicode, old(cr.points), d)
  {
    hide WellFormed, AgreesOnAscii, Member, InMask, Image, IsImage, Covered;
    ghost var pts := cr.points;
    var mask := new CharRange();
    UnicodeCase1(mask, t, MaskOf(isUnicode));
    ghost var masked := mask.points;
    var inter := new CharRange();
    inter.Op(mask.points, cr.points, Inter);
    mask.Invert();
    var sub := new CharRange();
    sub.Op(mask.points, cr.points, Inter);
    // the set is now split in what changes and what does not
    SubIs(t, isUnicode, masked, mask.points, pts, sub.points);
    MaskListed(t, isUnicode, inter.points);
    var result := MapPoints(t, inter.points, isUnicode);
    ghost var mapped := result.points;
    // folding does not keep the order, so the intervals have to be put in order first
    result.SortAndRemoveOverlap();
    // the rest of the set stays as it is
    cr.points := [];
    cr.Op(result.points, sub.points, Union);
    forall d: int
      ensures Member(cr.points, d) <==> IsImage(t, isUnicode, pts, d)
    {
      ImageWhole(t, isUnicode, pts, inter.points, sub.points, d);
      assert Member(result.points, d) <==> Covered(mapped, d);
    }
  }

  lemma SubIs(t: Table, isUnicode: bool, masked: seq<point>, inverted: seq<point>, pts: seq<point>, sub: seq<point>)
    requires Proper(pts) && forall c: int :: Member(masked, c) <==> InMask(t, c, MaskOf(isUnicode))
    requires Compressed(inverted) && Compressed(sub)
    requires forall c: int :: 0 <= c < UINT32_MAX ==> (Member(inverted, c) <==> !Member(masked, c))
    requires forall c: int :: Member(sub, c) <==> Member(inverted, c) && Member(pts, c)
    ensures forall c: int :: Member(sub, c) <==> !InMask(t, c, MaskOf(isUnicode)) && Member(pts, c)
  {
    forall c: int
      ensures Member(sub, c) <==> !InMask(t, c, MaskOf(isUnicode)) && Member(pts, c)
    {
      NoneAtEnds(inverted);
      CoveredMember(pts, c);
      if Member(pts, c) {
        var k :| InInterval(pts, k, c);
      }
    }
  }
}
