/** Case folding of characters and of sets of characters (libunicode.c lre_canonicalize and
    cr_regexp_canonicalize), for every well-formed case conversion table. */
module CaseFold {

  datatype RunType = U | L | UF | LF | UL | LSU | U2L399Ext2 | UFD20 | UFD1Ext | UExt | LFExt | UFExt2 | LFExt2 | UFExt3

  /** One entry of case_conv_table1 with its byte of case_conv_table2, unpacked. */
  datatype Run = Run(code: nat, len: nat, typ: RunType, data: nat)

  /** The tables case_conv_table1, case_conv_table2 and case_conv_ext. */
  datatype Table = Table(runs: seq<Run>, ext: seq<nat>)

  datatype ConvType = Upper | Lower | Fold

  /** The result of a conversion: one character, or several. */
  datatype Conversion = One(c: int) | Several

  predicate InRun(run: Run, c: int) {
    run.code <= c < run.code + run.len
  }

  /** The fields fit their bits, and the data of the run refer to places inside the tables. */
  predicate RunOk(t: Table, run: Run) {
    && run.code < 0x20000 && 1 <= run.len < 128 && run.data < 0x1000
    && match run.typ
       case U | L | UF | LF => run.data < |t.runs|
       case UL => run.len % 2 == 0
       case LSU => run.len == 3
       case U2L399Ext2 => run.data / 64 < |t.ext| && run.data % 64 < |t.ext|
       case UFD1Ext | UExt | LFExt => run.data < |t.ext|
       case _ => true
  }

  /** The runs are in order and do not overlap. */
  ghost predicate WellFormed(t: Table) {
    && |t.runs| >= 1 && (forall i :: 0 <= i < |t.runs| ==> RunOk(t, t.runs[i]))
    && (forall i, j :: 0 <= i < j < |t.runs| ==> t.runs[i].code + t.runs[i].len <= t.runs[j].code)
    && (forall i :: 0 <= i < |t.ext| ==> t.ext[i] < 0x10000)
  }

  /** What a run says of its characters. A UL run is made of pairs of an upper and a lower case character, an
      LSU run of the upper, title and lower case form of one character. */
  ghost function ConvEntry(t: Table, c: int, conv: ConvType, run: Run): Conversion
    requires RunOk(t, run) && InRun(run, c)
  {
    var a := c - run.code;
    match run.typ
    case U => if conv.Upper? then One(a + t.runs[run.data].code) else One(c)
    case L => if conv.Lower? then One(a + t.runs[run.data].code) else One(c)
    case UF => if conv.Lower? then One(c) else One(a + t.runs[run.data].code)
    case LF => if conv.Upper? then One(c) else One(a + t.runs[run.data].code)
    case UL => One(c - a % 2 + if conv.Upper? then 0 else 1)
    case LSU => One(run.code + if conv.Upper? then 0 else 2)
    case U2L399Ext2 => if conv.Upper? then Several else One(a + t.ext[run.data % 64])
    case UFD20 => One(if conv.Lower? then c else if conv.Upper? then run.data else run.data + 0x20)
    case UFD1Ext => One(if conv.Lower? then c else if conv.Upper? then t.ext[run.data] else t.ext[run.data] + 1)
    case UExt => One(if conv.Upper? then t.ext[run.data] else c)
    case LFExt => One(if conv.Upper? then c else t.ext[run.data])
    case LFExt2 => if conv.Upper? then One(c) else Several
    case UFExt2 | UFExt3 => if conv.Lower? then One(c) else Several
  }

  /** Conversions by number. */
  ghost function ConvOf(convType: int): ConvType {
    if convType == 0 then Upper else if convType == 1 then Lower else Fold
  }

  /** RUN_TYPE_U and the other types by number. */
  function TypeNumber(typ: RunType): nat {
    match typ
    case U => 0 case L => 1 case UF => 2 case LF => 3 case UL => 4 case LSU => 5 case U2L399Ext2 => 6
    case UFD20 => 7 case UFD1Ext => 8 case UExt => 9 case LFExt => 10
    case UFExt2 => 11 case LFExt2 => 12 case UFExt3 => 13
  }

  /** lre_case_conv_entry: the number of resulting characters and, if it is one, that character. */
  method LreCaseConvEntry(t: Table, c0: int, convType: int, idx: nat) returns (len: nat, res: int)
    requires idx < |t.runs| && RunOk(t, t.runs[idx]) && InRun(t.runs[idx], c0) && 0 <= convType <= 2
    ensures ConvEntry(t, c0, ConvOf(convType), t.runs[idx]) == if len == 1 then One(res) else Several
  {
    var run := t.runs[idx];
    var isLower := if convType != 0 then 1 else 0;
    var c, code, data, n := c0, run.code, run.data, TypeNumber(run.typ);
    len := 1;
    match run.typ {
      case U | L | UF | LF =>
        if convType == n % 2 || (n >= 2 && convType == 2) {
          c := c - code + t.runs[data].code;
        }
      case UL =>
        var a := c - code;
        if a % 2 == 1 - isLower {
          // the place with its last bit inverted
          c := (if a % 2 == 0 then a + 1 else a - 1) + code;
        }
      case LSU =>
        var a := c - code;
        if a == 1 {
          c := c + 2 * isLower - 1;
        } else if a == (1 - isLower) * 2 {
          c := c + (2 * isLower - 1) * 2;
        }
      case U2L399Ext2 =>
        if isLower == 0 {
          len := 2;
        } else {
          c := c - code + t.ext[data % 64];
        }
      case UFD20 =>
        if convType != 1 {
          c := data + if convType == 2 then 0x20 else 0;
        }
      case UFD1Ext =>
        if convType != 1 {
          c := t.ext[data] + if convType == 2 then 1 else 0;
        }
      case UExt | LFExt =>
        if isLower == n - 9 {
          c := t.ext[data];
        }
      case LFExt2 =>
        if isLower != 0 {
          len := 2;
        }
      case UFExt2 =>
        if convType != 1 {
          len := 2;
        }
      case UFExt3 =>
        if convType != 1 {
          len := 3;
        }
    }
    res := c;
  }

  /** The fast path for characters below 128. */
  ghost function Ascii(c: int, isUnicode: bool): int {
    if isUnicode then
      if 'A' as int <= c <= 'Z' as int then c + 32 else c
    else
      if 'a' as int <= c <= 'z' as int then c - 32 else c
  }

  /** The folding of a character of a run: for patterns with the unicode flag its case folding, otherwise its
      upper case form, if that is a single character and not in the ASCII range. */
  ghost function FoldingEntry(t: Table, c: int, run: Run, isUnicode: bool): int
    requires RunOk(t, run) && InRun(run, c)
  {
    if isUnicode then
      match ConvEntry(t, c, Fold, run)
      case One(d) => d
      case Several => SharedFolding(c)
    else if c < 128 then Ascii(c, false)
    else
      match ConvEntry(t, c, Upper, run)
      case One(d) => if d >= 128 then d else c
      case Several => c
  }

  /** Of the characters that fold to several, three fold like another character. */
  ghost function SharedFolding(c: int): int {
    match c
    case 0xfb06 => 0xfb05
    case 0x1fd3 => 0x0390
    case 0x1fe3 => 0x03b0
    case _ => c
  }

  /** lre_case_folding_entry */
  method LreCaseFoldingEntry(t: Table, c0: int, idx: nat, isUnicode: bool) returns (c: int)
    requires idx < |t.runs| && RunOk(t, t.runs[idx]) && InRun(t.runs[idx], c0)
    ensures c == FoldingEntry(t, c0, t.runs[idx], isUnicode)
  {
    c := c0;
    if isUnicode {
      var len, res := LreCaseConvEntry(t, c, 2, idx);
      if len == 1 {
        c := res;
      } else if c == 0xfb06 {
        c := 0xfb05;
      } else if c == 0x01fd3 {
        c := 0x390;
      } else if c == 0x01fe3 {
        c := 0x3b0;
      }
    } else if c < 128 {
      if 'a' as int <= c <= 'z' as int {
        c := c - 'a' as int + 'A' as int;
      }
    } else {
      // legacy patterns: to upper case if that is a single character from 128 on
      var len, res := LreCaseConvEntry(t, c, 0, idx);
      if len == 1 && res >= 128 {
        c := res;
      }
    }
  }

  ghost predicate Listed(t: Table, c: int) {
    exists i :: 0 <= i < |t.runs| && InRun(t.runs[i], c)
  }

  /** The folding of c by the table alone. */
  ghost function Folded(t: Table, c: int, isUnicode: bool): int
    requires WellFormed(t)
  {
    if Listed(t, c) then
      var i :| 0 <= i < |t.runs| && InRun(t.runs[i], c);
      FoldingEntry(t, c, t.runs[i], isUnicode)
    else c
  }

  lemma OneRun(t: Table, c: int, i: int, j: int)
    requires WellFormed(t) && 0 <= i < |t.runs| && 0 <= j < |t.runs| && InRun(t.runs[i], c) && InRun(t.runs[j], c)
    ensures i == j
  {}

  lemma FoldedBy(t: Table, c: int, i: int, isUnicode: bool)
    requires WellFormed(t) && 0 <= i < |t.runs| && InRun(t.runs[i], c)
    ensures Listed(t, c) && Folded(t, c, isUnicode) == FoldingEntry(t, c, t.runs[i], isUnicode)
  {
    var j :| 0 <= j < |t.runs| && InRun(t.runs[j], c)
      && Folded(t, c, isUnicode) == FoldingEntry(t, c, t.runs[j], isUnicode);
    OneRun(t, c, i, j);
  }

  /** What canonicalization is meant to be: the fast path below 128, the table above. */
  ghost function Canonical(t: Table, c: int, isUnicode: bool): int
    requires WellFormed(t)
  {
    if c < 128 then Ascii(c, isUnicode) else Folded(t, c, isUnicode)
  }

  ghost function Direction(isUnicode: bool): ConvType {
    if isUnicode then Fold else Upper
  }

  ghost predicate AgreesAt(t: Table, c: int, run: Run, isUnicode: bool)
    requires RunOk(t, run) && InRun(run, c)
  {
    ConvEntry(t, c, Direction(isUnicode), run) == One(Ascii(c, isUnicode))
  }

  /** The table says the same as the fast path. */
  ghost predicate AgreesOnAscii(t: Table, isUnicode: bool)
    requires WellFormed(t)
  {
    forall c: int :: 0 <= c < 128 ==>
      && (forall i :: 0 <= i < |t.runs| && InRun(t.runs[i], c) ==> AgreesAt(t, c, t.runs[i], isUnicode))
      && (!Listed(t, c) ==> Ascii(c, isUnicode) == c)
  }

  lemma CanonicalFolded(t: Table, c: int, isUnicode: bool)
    requires WellFormed(t) && AgreesOnAscii(t, isUnicode) && c >= 0
    ensures Canonical(t, c, isUnicode) == Folded(t, c, isUnicode)
  {
    if c < 128 && Listed(t, c) {
      var i :| 0 <= i < |t.runs| && InRun(t.runs[i], c);
      FoldedBy(t, c, i, isUnicode);
      assert AgreesAt(t, c, t.runs[i], isUnicode);
    }
  }

  /** lre_canonicalize: the binary search finds the run if there is one. */
  method LreCanonicalize(t: Table, c: int, isUnicode: bool) returns (r: int)
    requires WellFormed(t)
    ensures r == Canonical(t, c, isUnicode)
  {
    if c < 128 {
      r := c;
      if isUnicode {
        if 'A' as int <= c <= 'Z' as int {
          r := c - 'A' as int + 'a' as int;
        }
      } else {
        if 'a' as int <= c <= 'z' as int {
          r := c - 'a' as int + 'A' as int;
        }
      }
      return;
    }
    var idxMin, idxMax := 0, |t.runs| - 1;
    while idxMin <= idxMax
      invariant 0 <= idxMin <= idxMax + 1 <= |t.runs|
      invariant forall i :: 0 <= i < |t.runs| && InRun(t.runs[i], c) ==> idxMin <= i <= idxMax
    {
      var idx := (idxMax + idxMin) / 2;
      var run := t.runs[idx];
      if c < run.code {
        idxMax := idx - 1;
      } else if c >= run.code + run.len {
        idxMin := idx + 1;
      } else {
        FoldedBy(t, c, idx, isUnicode);
        r := LreCaseFoldingEntry(t, c, idx, isUnicode);
        return;
      }
    }
    return c;
  }

  // The characters that change.

  /** CASE_U, CASE_L and CASE_F as bits. */
  datatype CaseMask = CaseMask(u: bool, l: bool, f: bool)

  /** tab_run_mask */
  predicate Masked(typ: RunType, m: CaseMask) {
    || (m.u && (typ.U? || typ.UF? || typ.UL? || typ.LSU? || typ.U2L399Ext2? || typ.UFD20? || typ.UFD1Ext? || typ.UExt?
                || typ.UFExt2?
                || typ.UFExt3?))
    || (m.l && (typ.L? || typ.LF? || typ.UL? || typ.LSU? || typ.U2L399Ext2? || typ.LFExt? || typ.LFExt2?))
    || (m.f && (typ.UF? || typ.LF? || typ.UL? || typ.LSU? || typ.U2L399Ext2? || typ.LFExt? || typ.LFExt2? || typ.UFD20?
                || typ.UFD1Ext?
                || typ.UFExt2? || typ.UFExt3?))
  }

  predicate Both(m: CaseMask) {
    m.u && (m.l || m.f)
  }

  /** Is the character at place a of a run changed by the conversions of the mask? */
  predicate Selected(run: Run, a: int, m: CaseMask) {
    && Masked(run.typ, m)
    && (run.typ.UL? && !Both(m) ==> (a % 2 == 1 <==> m.u))
    && (run.typ.LSU? && !Both(m) ==> if m.u then a == 1 || a == 2 else a == 0 || a == 1)
  }

  ghost predicate InMask(t: Table, c: int, m: CaseMask) {
    exists i :: 0 <= i < |t.runs| && InRun(t.runs[i], c) && Selected(t.runs[i], c - t.runs[i].code, m)
  }

  function MaskOf(isUnicode: bool): CaseMask {
    if isUnicode then CaseMask(false, false, true) else CaseMask(true, false, false)
  }

  /** A character outside the mask is not changed. */
  lemma UnmaskedStays(t: Table, c: int, isUnicode: bool)
    requires WellFormed(t) && !InMask(t, c, MaskOf(isUnicode)) && (AgreesOnAscii(t, isUnicode) && c >= 0)
    ensures Folded(t, c, isUnicode) == c
  {
    if Listed(t, c) {
      var i :| 0 <= i < |t.runs| && InRun(t.runs[i], c);
      FoldedBy(t, c, i, isUnicode);
      NotSelected(t, c, t.runs[i], isUnicode);
      if c < 128 {
        assert AgreesAt(t, c, t.runs[i], isUnicode);
      }
    }
  }

  lemma NotSelected(t: Table, c: int, run: Run, isUnicode: bool)
    requires RunOk(t, run) && InRun(run, c) && !Selected(run, c - run.code, MaskOf(isUnicode))
    ensures ConvEntry(t, c, Direction(isUnicode), run) == One(c)
  {}

  /** The folded character is a code point that fits. */
  lemma FoldedRange(t: Table, c: int, run: Run, isUnicode: bool)
    requires WellFormed(t) && RunOk(t, run) && InRun(run, c)
    ensures 0 <= FoldingEntry(t, c, run, isUnicode) < 0x50000
  {}
}
