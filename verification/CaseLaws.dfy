/** What case conversion does, run type by run type, and what canonicalization is for: it picks one character of
    every class, once and for all. */
module CaseLaws {
  import opened CharRanges
  import opened CaseFold
  import opened CaseRange

  /** The conversion of a character by the table. */
  ghost function Converted(t: Table, c: int, conv: ConvType): Conversion
    requires WellFormed(t)
  {
    if Listed(t, c) then
      var i :| 0 <= i < |t.runs| && InRun(t.runs[i], c);
      ConvEntry(t, c, conv, t.runs[i])
    else One(c)
  }

  lemma ConvertedBy(t: Table, c: int, conv: ConvType, i: int)
    requires WellFormed(t) && 0 <= i < |t.runs| && InRun(t.runs[i], c)
    ensures Converted(t, c, conv) == ConvEntry(t, c, conv, t.runs[i])
  {
    assert Listed(t, c);
    var j :| 0 <= j < |t.runs| && InRun(t.runs[j], c) && Converted(t, c, conv) == ConvEntry(t, c, conv, t.runs[j]);
    OneRun(t, c, i, j);
  }

  /** All three conversions by one run. */
  lemma AllConverted(t: Table, c: int, i: int)
    requires WellFormed(t) && 0 <= i < |t.runs| && InRun(t.runs[i], c)
    ensures RunOk(t, t.runs[i])
    ensures Converted(t, c, Upper) == ConvEntry(t, c, Upper, t.runs[i])
    ensures Converted(t, c, Lower) == ConvEntry(t, c, Lower, t.runs[i])
    ensures Converted(t, c, Fold) == ConvEntry(t, c, Fold, t.runs[i])
  {
    ConvertedBy(t, c, Upper, i);
    ConvertedBy(t, c, Lower, i);
    ConvertedBy(t, c, Fold, i);
  }

  // The run types.

  /** The three conversions of a character are these. */
  ghost predicate Goes(t: Table, c: int, up: int, low: int, fold: int)
    requires WellFormed(t)
  {
    Converted(t, c, Upper) == One(up) && Converted(t, c, Lower) == One(low) && Converted(t, c, Fold) == One(fold)
  }

  ghost predicate EntryGoes(t: Table, c: int, run: Run, up: int, low: int, fold: int)
    requires RunOk(t, run) && InRun(run, c)
  {
    && ConvEntry(t, c, Upper, run) == One(up) && ConvEntry(t, c, Lower, run) == One(low)
    && ConvEntry(t, c, Fold, run) == One(fold)
  }

  lemma GoesBy(t: Table, c: int, i: int, up: int, low: int, fold: int)
    requires WellFormed(t) && 0 <= i < |t.runs| && InRun(t.runs[i], c) && RunOk(t, t.runs[i])
    requires EntryGoes(t, c, t.runs[i], up, low, fold)
    ensures Goes(t, c, up, low, fold)
  {
    hide WellFormed, ConvEntry, Converted;
    AllConverted(t, c, i);
  }

  /** A run of pairs: the k-th pair is lo, hi. */
  lemma PairConverts(t: Table, i: nat, k: nat, lo: int, hi: int)
    requires WellFormed(t) && i < |t.runs| && t.runs[i].typ.UL? && 2 * k < t.runs[i].len
    requires lo == t.runs[i].code + 2 * k && hi == lo + 1
    ensures Goes(t, lo, lo, hi, hi) && Goes(t, hi, lo, hi, hi)
  {
    assert RunOk(t, t.runs[i]);
    PairEntry(t, t.runs[i], k, lo, hi);
    hide WellFormed, EntryGoes, Goes, RunOk;
    GoesBy(t, lo, i, lo, hi, hi);
    GoesBy(t, hi, i, lo, hi, hi);
  }

  lemma PairEntry(t: Table, run: Run, k: nat, lo: int, hi: int)
    requires RunOk(t, run) && run.typ.UL? && 2 * k < run.len && lo == run.code + 2 * k && hi == lo + 1
    ensures InRun(run, lo) && InRun(run, hi) && EntryGoes(t, lo, run, lo, hi, hi) && EntryGoes(t, hi, run, lo, hi, hi)
  {
    assert (2 * k) % 2 == 0 && (2 * k + 1) % 2 == 1;
  }

  /** A run of three: whatever the form, upper case is the first, lower case and folding the last. */
  lemma TripleConverts(t: Table, i: nat, c: int)
    requires WellFormed(t) && i < |t.runs| && t.runs[i].typ.LSU? && InRun(t.runs[i], c)
    ensures Converted(t, c, Upper) == One(t.runs[i].code)
    ensures Converted(t, c, Lower) == Converted(t, c, Fold) == One(t.runs[i].code + 2)
  {
    hide WellFormed, Converted;
    AllConverted(t, c, i);
  }

  predicate UpperRun(typ: RunType) {
    typ.U? || typ.UF?
  }

  predicate LowerRun(typ: RunType) {
    typ.L? || typ.LF?
  }

  /** The run i of lower case characters and the run j of their upper case forms point at each other. */
  ghost predicate Mutual(t: Table, i: nat, j: nat)
    requires WellFormed(t)
  {
    && i < |t.runs| && j < |t.runs| && UpperRun(t.runs[i].typ) && LowerRun(t.runs[j].typ)
    && t.runs[i].data == j && t.runs[j].data == i && t.runs[i].len == t.runs[j].len
  }

  /** Between such runs the two conversions are inverse to each other, and folding goes with them exactly from a
      UF run and from an LF run. */
  lemma InverseConversions(t: Table, i: nat, j: nat, a: nat, c: int, d: int)
    requires WellFormed(t) && Mutual(t, i, j) && a < t.runs[i].len && c == t.runs[i].code + a && d == t.runs[j].code + a
    ensures Goes(t, c, d, c, if t.runs[i].typ.UF? then d else c)
    ensures Goes(t, d, d, c, if t.runs[j].typ.LF? then c else d)
  {
    assert RunOk(t, t.runs[i]) && RunOk(t, t.runs[j]);
    hide WellFormed;
    assert InRun(t.runs[i], c) && InRun(t.runs[j], d);
    assert EntryGoes(t, c, t.runs[i], d, c, if t.runs[i].typ.UF? then d else c);
    assert EntryGoes(t, d, t.runs[j], d, c, if t.runs[j].typ.LF? then c else d);
    hide Mutual, EntryGoes, Goes, RunOk, InRun;
    GoesBy(t, c, i, d, c, if t.runs[i].typ.UF? then d else c);
    GoesBy(t, d, j, d, c, if t.runs[j].typ.LF? then c else d);
  }

  /** Lower case characters with upper case forms elsewhere: folding gives the lower case form of the upper case
      form, which stands 32 or one place behind it. */
  lemma FarUpper(t: Table, i: nat, c: int)
    requires WellFormed(t) && i < |t.runs| && InRun(t.runs[i], c) && (t.runs[i].typ.UFD20? || t.runs[i].typ.UFD1Ext?)
    ensures Converted(t, c, Lower) == One(c) && Converted(t, c, Upper).One?
    ensures Converted(t, c, Fold) == One(Converted(t, c, Upper).c + if t.runs[i].typ.UFD20? then 32 else 1)
    ensures Converted(t, c, Upper).c == if t.runs[i].typ.UFD20? then t.runs[i].data else t.ext[t.runs[i].data]
  {
    hide WellFormed, Converted;
    AllConverted(t, c, i);
  }

  /** One direction only: the upper case form, or the lower case form that is also the folding. */
  lemma OneWay(t: Table, i: nat, c: int)
    requires WellFormed(t) && i < |t.runs| && InRun(t.runs[i], c) && (t.runs[i].typ.UExt? || t.runs[i].typ.LFExt?)
    ensures
      var target, up := One(t.ext[t.runs[i].data]), t.runs[i].typ.UExt?;
      && Converted(t, c, Upper) == (if up then target else One(c))
      && Converted(t, c, Lower) == Converted(t, c, Fold) == (if up then One(c) else target)
  {
    hide WellFormed, Converted;
    AllConverted(t, c, i);
  }

  /** Characters with a conversion to several: lower case characters in upper case and folding, capital i with a
      dot in lower case and folding, and capitals with iota in upper case, whose lower case form is also the
      folding. */
  lemma SeveralWay(t: Table, i: nat, c: int)
    requires WellFormed(t) && i < |t.runs| && InRun(t.runs[i], c)
    ensures t.runs[i].typ.UFExt2? || t.runs[i].typ.UFExt3? ==>
              Converted(t, c, Upper) == Converted(t, c, Fold) == Several && Converted(t, c, Lower) == One(c)
    ensures t.runs[i].typ.LFExt2? ==>
              Converted(t, c, Lower) == Converted(t, c, Fold) == Several && Converted(t, c, Upper) == One(c)
    ensures t.runs[i].typ.U2L399Ext2? ==>
              Converted(t, c, Upper) == Several && Converted(t, c, Lower) == Converted(t, c, Fold)
              && Converted(t, c, Lower) == One(c - t.runs[i].code + t.ext[t.runs[i].data % 64])
  {
    hide WellFormed, Converted;
    AllConverted(t, c, i);
  }

  // The sets of characters that change.

  /** One of the conversions of the mask changes the character. */
  ghost predicate Changes(t: Table, c: int, m: CaseMask)
    requires WellFormed(t)
  {
    || (m.u && Converted(t, c, Upper) != One(c))
    || (m.l && Converted(t, c, Lower) != One(c))
    || (m.f && Converted(t, c, Fold) != One(c))
  }

  /** The run names c itself as the target of c. */
  ghost predicate Idle(t: Table, c: int, run: Run)
    requires RunOk(t, run) && InRun(run, c)
  {
    match run.typ
    case U | L | UF | LF => t.runs[run.data].code == run.code
    case U2L399Ext2 => t.ext[run.data % 64] == run.code
    case UFD20 => run.data == c || run.data + 0x20 == c
    case UFD1Ext => t.ext[run.data] == c || t.ext[run.data] + 1 == c
    case UExt | LFExt => t.ext[run.data] == c
    case _ => false
  }

  /** What a mask selects: every character that one of its conversions changes, and beyond that only characters
      that a run names as their own targets. */
  lemma MaskExact(t: Table, c: int, m: CaseMask)
    requires WellFormed(t)
    ensures Changes(t, c, m) ==> InMask(t, c, m)
    ensures InMask(t, c, m) && !Changes(t, c, m) ==>
              exists i :: 0 <= i < |t.runs| && InRun(t.runs[i], c) && Idle(t, c, t.runs[i])
  {
    hide ConvEntry, Selected, Idle, RunOk, Converted;
    if Listed(t, c) {
      var i :| 0 <= i < |t.runs| && InRun(t.runs[i], c);
      AllConverted(t, c, i);
      SelectedExact(t, c, t.runs[i], m);
      MaskBy(t, c, m, i);
    } else {
      Unlisted(t, c);
    }
  }

  lemma Unlisted(t: Table, c: int)
    requires WellFormed(t) && !Listed(t, c)
    ensures forall conv: ConvType :: Converted(t, c, conv) == One(c)
  {}

  lemma MaskBy(t: Table, c: int, m: CaseMask, i: int)
    requires WellFormed(t) && 0 <= i < |t.runs| && InRun(t.runs[i], c)
    ensures InMask(t, c, m) <==> Selected(t.runs[i], c - t.runs[i].code, m)
  {
    if InMask(t, c, m) {
      var j :| 0 <= j < |t.runs| && InRun(t.runs[j], c) && Selected(t.runs[j], c - t.runs[j].code, m);
      OneRun(t, c, i, j);
    }
  }

  lemma SelectedExact(t: Table, c: int, run: Run, m: CaseMask)
    requires RunOk(t, run) && InRun(run, c)
    ensures
      var changes :=
        || (m.u && ConvEntry(t, c, Upper, run) != One(c))
        || (m.l && ConvEntry(t, c, Lower, run) != One(c))
        || (m.f && ConvEntry(t, c, Fold, run) != One(c));
      && (changes ==> Selected(run, c - run.code, m))
      && (Selected(run, c - run.code, m) && !Idle(t, c, run) ==> changes)
  {}

  // Canonicalization.

  /** Without the unicode flag no character from 128 on becomes one below (section 22.2.2.7.3 of ECMA-262). */
  lemma StaysBeyondAscii(t: Table, c: int)
    requires WellFormed(t) && c >= 128
    ensures Canonical(t, c, false) >= 128
  {
    if Listed(t, c) {
      var i :| 0 <= i < |t.runs| && InRun(t.runs[i], c);
      FoldedBy(t, c, i, false);
    }
  }

  /** Below 128 the letters become one case and everything else stays. */
  lemma AsciiCanonical(t: Table, k: nat)
    requires WellFormed(t) && k < 128
    ensures 65 <= k <= 90 ==> Canonical(t, k, true) == Canonical(t, k + 32, true) == k + 32
    ensures 65 <= k <= 90 ==> Canonical(t, k, false) == Canonical(t, k + 32, false) == k
    ensures !(65 <= k <= 90) && !(97 <= k <= 122) ==> Canonical(t, k, true) == Canonical(t, k, false) == k
  {}

  /** From 128 on, canonicalization is the folding, or the upper case form that is not below 128. */
  lemma CanonicalConverts(t: Table, c: int)
    requires WellFormed(t) && c >= 128
    ensures Converted(t, c, Fold).One? ==> Canonical(t, c, true) == Converted(t, c, Fold).c
    ensures Converted(t, c, Upper).One? && Converted(t, c, Upper).c >= 128 ==>
              Canonical(t, c, false) == Converted(t, c, Upper).c
    ensures Converted(t, c, Upper).Several? || Converted(t, c, Upper).c < 128 ==> Canonical(t, c, false) == c
    ensures Converted(t, c, Fold).Several? ==>
              Canonical(t, c, true) == if c == 0xfb06 then 0xfb05 else if c == 0x1fd3 then 0x390
                                       else if c == 0x1fe3 then 0x3b0 else c
  {
    if Listed(t, c) {
      var i :| 0 <= i < |t.runs| && InRun(t.runs[i], c);
      FoldedBy(t, c, i, true);
      FoldedBy(t, c, i, false);
      ConvertedBy(t, c, Upper, i);
      ConvertedBy(t, c, Fold, i);
    }
  }

  /** Canonicalization leaves the place alone, by the type of the run. */
  ghost predicate AtRest(run: Run, d: int, isUnicode: bool) {
    match run.typ
    case U | UExt => isUnicode
    case LF | LFExt => !isUnicode
    case U2L399Ext2 => !isUnicode
    case L => true
    case LFExt2 | UFExt2 | UFExt3 => isUnicode ==> d != 0xfb06 && d != 0x1fd3 && d != 0x1fe3
    case UL => (d - run.code) % 2 == if isUnicode then 1 else 0
    case LSU => d - run.code == if isUnicode then 2 else 0
    case _ => false
  }

  /** d is in no run, or in one that leaves it alone. */
  ghost predicate Rests(t: Table, d: int, isUnicode: bool) {
    forall i :: 0 <= i < |t.runs| && InRun(t.runs[i], d) ==> AtRest(t.runs[i], d, isUnicode)
  }

  ghost predicate AllRest(t: Table, first: int, len: nat) {
    forall d: int :: first <= d < first + len ==> Rests(t, d, true)
  }

  /** The targets of a run: runs of characters with the other case point back, everything else is at rest. */
  ghost predicate RunCloses(t: Table, i: nat, isUnicode: bool)
    requires WellFormed(t) && i < |t.runs| && RunOk(t, t.runs[i])
  {
    var run := t.runs[i];
    match run.typ
    case U => isUnicode || Mutual(t, i, run.data)
    case L => true
    case UF => Mutual(t, i, run.data) && t.runs[run.data].typ.L?
    case LF =>
      || !isUnicode || (Mutual(t, run.data, i) && t.runs[run.data].typ.U?)
      || AllRest(t, t.runs[run.data].code, run.len)
    case U2L399Ext2 => isUnicode ==> AllRest(t, t.ext[run.data % 64], run.len)
    case UFD20 => Rests(t, if isUnicode then run.data + 0x20 else run.data, isUnicode)
    case UFD1Ext => Rests(t, if isUnicode then t.ext[run.data] + 1 else t.ext[run.data], isUnicode)
    case UExt => isUnicode || Rests(t, t.ext[run.data], false)
    case LFExt => isUnicode ==> Rests(t, t.ext[run.data], true)
    case UFExt2 | UFExt3 | LFExt2 =>
      isUnicode ==> (InRun(run, 0xfb06) ==> Rests(t, 0xfb05, true)) && (InRun(run, 0x1fd3) ==> Rests(t, 0x390, true))
                    && (InRun(run, 0x1fe3) ==> Rests(t, 0x3b0, true))
    case _ => true
  }

  /** The table leads to characters that it leads nowhere from. */
  ghost predicate Closed(t: Table, isUnicode: bool)
    requires WellFormed(t)
  {
    forall i: nat :: i < |t.runs| ==> RunOk(t, t.runs[i]) && RunCloses(t, i, isUnicode)
  }

  lemma RestingStays(t: Table, d: int, isUnicode: bool)
    requires WellFormed(t) && Rests(t, d, isUnicode) && AgreesOnAscii(t, isUnicode) && d >= 0
    ensures Folded(t, d, isUnicode) == d
  {
    if Listed(t, d) {
      var i :| 0 <= i < |t.runs| && InRun(t.runs[i], d);
      FoldedBy(t, d, i, isUnicode);
      AtRestStays(t, d, t.runs[i], isUnicode);
      if d < 128 {
        assert AgreesAt(t, d, t.runs[i], isUnicode);
      }
    }
  }

  lemma AtRestStays(t: Table, d: int, run: Run, isUnicode: bool)
    requires RunOk(t, run) && InRun(run, d) && AtRest(run, d, isUnicode)
    ensures isUnicode || d >= 128 ==> FoldingEntry(t, d, run, isUnicode) == d
    ensures ConvEntry(t, d, Direction(isUnicode), run) == One(d) || ConvEntry(t, d, Direction(isUnicode), run).Several?
  {}

  /** The characters of the run that a run points at. */
  lemma PartnerRests(t: Table, i: nat, j: nat, a: nat, isUnicode: bool)
    requires WellFormed(t) && i < |t.runs| && t.runs[i].data == j < |t.runs| && a < t.runs[j].len
    requires AtRest(t.runs[j], t.runs[j].code + a, isUnicode)
    ensures Rests(t, t.runs[j].code + a, isUnicode)
  {
    var d := t.runs[j].code + a;
    forall k | 0 <= k < |t.runs| && InRun(t.runs[k], d)
      ensures AtRest(t.runs[k], d, isUnicode)
    {
      OneRun(t, d, j, k);
    }
  }

  lemma TargetRests(t: Table, c: int, i: nat, isUnicode: bool)
    requires WellFormed(t) && Closed(t, isUnicode) && i < |t.runs| && InRun(t.runs[i], c)
    requires isUnicode || c >= 128
    ensures
      var d := FoldingEntry(t, c, t.runs[i], isUnicode);
      d == c || Rests(t, d, isUnicode)
  {
    var run := t.runs[i];
    assert RunOk(t, run) && RunCloses(t, i, isUnicode);
    if run.typ.U? || run.typ.UF? || run.typ.LF? {
      PartnerTarget(t, c, i, isUnicode);
    } else if run.typ.UL? || run.typ.LSU? {
      OwnTarget(t, c, i, isUnicode);
    } else {
      hide WellFormed, Rests, Mutual;
    }
  }

  lemma PartnerTarget(t: Table, c: int, i: nat, isUnicode: bool)
    requires WellFormed(t) && i < |t.runs| && RunOk(t, t.runs[i]) && RunCloses(t, i, isUnicode) && InRun(t.runs[i], c)
    requires (t.runs[i].typ.U? || t.runs[i].typ.UF? || t.runs[i].typ.LF?) && (isUnicode || c >= 128)
    ensures
      var d := FoldingEntry(t, c, t.runs[i], isUnicode);
      d == c || Rests(t, d, isUnicode)
  {
    hide WellFormed, Rests;
    var j := t.runs[i].data;
    if (t.runs[i].typ.LF? && Mutual(t, j, i)) || (!t.runs[i].typ.LF? && Mutual(t, i, j)) {
      if AtRest(t.runs[j], t.runs[j].code + (c - t.runs[i].code), isUnicode) {
        PartnerRests(t, i, j, c - t.runs[i].code, isUnicode);
      }
    }
  }

  /** The target lies in the run itself. */
  lemma OwnTarget(t: Table, c: int, i: nat, isUnicode: bool)
    requires WellFormed(t) && i < |t.runs| && RunOk(t, t.runs[i]) && InRun(t.runs[i], c)
    requires (t.runs[i].typ.UL? || t.runs[i].typ.LSU?) && (isUnicode || c >= 128)
    ensures
      var d := FoldingEntry(t, c, t.runs[i], isUnicode);
      d == c || Rests(t, d, isUnicode)
  {
    var d := FoldingEntry(t, c, t.runs[i], isUnicode);
    OwnTargetRests(t, c, t.runs[i], isUnicode);
    hide WellFormed, ConvEntry, AtRest;
    forall k | 0 <= k < |t.runs| && InRun(t.runs[k], d)
      ensures d == c || AtRest(t.runs[k], d, isUnicode)
    {
      OneRun(t, d, i, k);
    }
  }

  lemma OwnTargetRests(t: Table, c: int, run: Run, isUnicode: bool)
    requires RunOk(t, run) && InRun(run, c) && (run.typ.UL? || run.typ.LSU?) && (isUnicode || c >= 128)
    ensures
      var d := FoldingEntry(t, c, run, isUnicode);
      InRun(run, d) && (d == c || AtRest(run, d, isUnicode))
  {}

  /** Canonicalization is done after one step. */
  lemma CanonicalTwice(t: Table, c: int, isUnicode: bool)
    requires WellFormed(t) && AgreesOnAscii(t, isUnicode) && Closed(t, isUnicode) && c >= 0
    ensures Canonical(t, Canonical(t, c, isUnicode), isUnicode) == Canonical(t, c, isUnicode)
  {
    CanonicalFolded(t, c, isUnicode);
    if c >= 128 && Listed(t, c) {
      var i: nat :| i < |t.runs| && InRun(t.runs[i], c);
      FoldedBy(t, c, i, isUnicode);
      FoldedRange(t, c, t.runs[i], isUnicode);
      TargetRests(t, c, i, isUnicode);
      var d := Canonical(t, c, isUnicode);
      CanonicalFolded(t, d, isUnicode);
      if d != c {
        RestingStays(t, d, isUnicode);
      }
    }
  }

  /** So a set that has been canonicalized once does not change when it is canonicalized again. */
  lemma ImageTwice(t: Table, isUnicode: bool, pts: seq<point>, once: seq<point>, twice: seq<point>)
    requires WellFormed(t) && AgreesOnAscii(t, isUnicode) && Closed(t, isUnicode) && Proper(pts)
    requires Compressed(once) && forall d: int :: Member(once, d) <==> IsImage(t, isUnicode, pts, d)
    requires Compressed(twice) && forall d: int :: Member(twice, d) <==> IsImage(t, isUnicode, once, d)
    ensures twice == once
  {
    forall d: int
      ensures Member(twice, d) <==> Member(once, d)
    {
      if Member(once, d) {
        var c: int :| Member(pts, c) && Canonical(t, c, isUnicode) == d;
        MembersNatural(pts, c);
        CanonicalTwice(t, c, isUnicode);
        assert Member(once, d) && Canonical(t, d, isUnicode) == d;
      }
      if Member(twice, d) {
        var e: int :| Member(once, e) && Canonical(t, e, isUnicode) == d;
        var c: int :| Member(pts, c) && Canonical(t, c, isUnicode) == e;
        MembersNatural(pts, c);
        CanonicalTwice(t, c, isUnicode);
      }
    }
    CompressedUnique(twice, once);
  }

  lemma MembersNatural(pts: seq<point>, c: int)
    requires Member(pts, c)
    ensures c >= 0
  {
    if c < 0 {
      CountNone(pts, c);
    }
  }
}
