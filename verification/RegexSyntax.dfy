/** Capture-free regular expressions and their backtracking semantics (section 22.2.2 of ECMA-262).
    The meaning of a pattern at a position is the list of end positions in the order in which the
    matcher's continuation is tried; a match is the first element of the list. */
module RegexSyntax {

  /** The repetition bound that stands for infinity. */
  const INF := 0x7fff_ffff

  datatype Regex =
    | Empty
    | Char(c: nat)
    | Dot
    | Any
    | Class(points: seq<nat>)
    | LineStart
    | LineEnd
    | WordBoundary(negated: bool)
    | Seq(left: Regex, right: Regex)
    | Alt(left: Regex, right: Regex)
    | Look(negated: bool, body: Regex)
    | Quant(body: Regex, min: nat, max: nat, greedy: bool)

  /** The text to match: code units, and whether line anchors see inner lines. */
  datatype Subject = Subject(text: seq<nat>, multiline: bool)

  /** Characters are code points. */
  ghost predicate SubjectOk(s: Subject) {
    forall i :: 0 <= i < |s.text| ==> s.text[i] <= 0x10_ffff
  }

  /** LF, CR, LS and PS (section 12.3 of ECMA-262) */
  const LINE_TERMINATORS: seq<nat> := [0x000a, 0x000d, 0x2028, 0x2029]

  predicate IsLineTerminator(c: nat) {
    c in LINE_TERMINATORS
  }

  /** The word characters of section 22.2.2.9.3 of ECMA-262, without ignore-case matching: letters, digits and
      the underscore. */
  predicate IsWordChar(c: nat) {
    IsLetter(c) || 0x30 <= c <= 0x39 || c == 0x5f
  }

  predicate IsLetter(c: nat) {
    0x41 <= c <= 0x5a || 0x61 <= c <= 0x7a
  }

  /** Membership in a class given by the end points of its half-open intervals. */
  predicate InClass(points: seq<nat>, c: nat) {
    exists i :: 0 <= i < |points| / 2 && points[2 * i] <= c < points[2 * i + 1]
  }

  predicate AtLineStart(s: Subject, p: nat)
    requires p <= |s.text|
  {
    p == 0 || (s.multiline && IsLineTerminator(s.text[p - 1]))
  }

  predicate AtLineEnd(s: Subject, p: nat)
    requires p <= |s.text|
  {
    p == |s.text| || (s.multiline && IsLineTerminator(s.text[p]))
  }

  predicate AtWordBoundary(s: Subject, p: nat)
    requires p <= |s.text|
  {
    (p > 0 && IsWordChar(s.text[p - 1])) != (p < |s.text| && IsWordChar(s.text[p]))
  }

  function Decrement(max: nat): nat {
    if max == INF then INF else if max == 0 then 0 else max - 1
  }

  /** All positions of a list lie between p and the end of the text. */
  ghost predicate Forward(s: Subject, p: nat, ends: seq<nat>) {
    forall i :: 0 <= i < |ends| ==> p <= ends[i] <= |s.text|
  }

  /** The end positions of r started at p, first choice first. */
  ghost function Matches(r: Regex, s: Subject, p: nat): (ends: seq<nat>)
    requires p <= |s.text|
    ensures Forward(s, p, ends)
    decreases r, 0, 0, 0, 0, 0
  {
    match r
    case Empty => [p]
    case Char(c) => if p < |s.text| && s.text[p] == c then [p + 1] else []
    case Dot => if p < |s.text| && !IsLineTerminator(s.text[p]) then [p + 1] else []
    case Any => if p < |s.text| then [p + 1] else []
    case Class(points) => if p < |s.text| && InClass(points, s.text[p]) then [p + 1] else []
    case LineStart => if AtLineStart(s, p) then [p] else []
    case LineEnd => if AtLineEnd(s, p) then [p] else []
    case WordBoundary(negated) => if AtWordBoundary(s, p) != negated then [p] else []
    case Seq(a, b) => SeqEach(b, s, p, Matches(a, s, p))
    case Alt(a, b) => Matches(a, s, p) + Matches(b, s, p)
    case Look(negated, a) => if (Matches(a, s, p) != []) != negated then [p] else []
    case Quant(a, min, max, greedy) => Rep(a, min, max, greedy, s, p)
  }

  /** Continues with b from each of the given positions in turn. */
  ghost function SeqEach(b: Regex, s: Subject, p: nat, starts: seq<nat>): (ends: seq<nat>)
    requires p <= |s.text| && Forward(s, p, starts)
    ensures Forward(s, p, ends)
    decreases b, 1, 0, 0, 0, |starts|
  {
    if starts == [] then []
    else
      Matches(b, s, starts[0]) + SeqEach(b, s, p, starts[1..])
  }

  /** RepeatMatcher of ECMA-262: at least min and at most max rounds of a; a round that is not mandatory
      must advance. */
  ghost function Rep(a: Regex, min: nat, max: nat, greedy: bool, s: Subject, p: nat): (ends: seq<nat>)
    requires p <= |s.text|
    ensures Forward(s, p, ends)
    decreases a, 1, min, |s.text| - p, 1, 0
  {
    if max == 0 then [p]
    else
      var rounds := RepEach(a, min, max, greedy, s, p, Matches(a, s, p));
      if min > 0 then rounds
      else if greedy then rounds + [p]
      else [p] + rounds
  }

  ghost function RepEach(a: Regex, min: nat, max: nat, greedy: bool, s: Subject, p: nat, starts: seq<nat>)
    : (ends: seq<nat>)
    requires p <= |s.text| && Forward(s, p, starts)
    ensures Forward(s, p, ends)
    decreases a, 1, min, |s.text| - p, 0, |starts|
  {
    if starts == [] then []
    else
      var first := if min == 0 && starts[0] == p then []
                   else Rep(a, if min == 0 then 0 else min - 1, Decrement(max), greedy, s, starts[0]);
      first + RepEach(a, min, max, greedy, s, p, starts[1..])
  }

  /** The overall result of a search from position p: the first position that has a match, and the first
      choice there. */
  datatype Found = NotFound | FoundAt(start: nat, end: nat)

  ghost function Search(r: Regex, s: Subject, p: nat, sticky: bool): Found
    requires p <= |s.text|
    decreases |s.text| - p
  {
    var ends := Matches(r, s, p);
    if ends != [] then FoundAt(p, ends[0])
    else if sticky || p == |s.text| then NotFound
    else Search(r, s, p + 1, sticky)
  }

  /** Patterns the compiler accepts: operands fit their bytecode fields and classes are increasing. */
  predicate WellFormed(r: Regex) {
    match r
    case Char(c) => c <= 0x10_ffff
    case Class(points) => ClassOk(points) && |points| / 2 < 65535
    case Seq(a, b) => WellFormed(a) && WellFormed(b)
    case Alt(a, b) => WellFormed(a) && WellFormed(b)
    case Look(_, a) => WellFormed(a)
    case Quant(a, min, max, _) => WellFormed(a) && min <= max <= INF
    case _ => true
  }

  /** Patterns the parser produces: as above, but a class may have too many intervals to be encoded. */
  predicate Parsed(r: Regex) {
    match r
    case Char(c) => c <= 0x10_ffff
    case Class(points) => ClassOk(points)
    case Seq(a, b) => Parsed(a) && Parsed(b)
    case Alt(a, b) => Parsed(a) && Parsed(b)
    case Look(_, a) => Parsed(a)
    case Quant(a, min, max, _) => Parsed(a) && min <= max <= INF
    case _ => true
  }

  predicate ClassOk(points: seq<nat>) {
    && |points| % 2 == 0
    && (forall i, j :: 0 <= i < j < |points| ==> points[i] < points[j])
    && (forall i :: 0 <= i < |points| ==> points[i] <= 0xffff_ffff)
  }

  /** No match of r on the text is empty. */
  ghost predicate NeverEmpty(r: Regex, s: Subject) {
    forall p: nat | p <= |s.text| :: p !in Matches(r, s, p)
  }

  /** Every lazy repetition with optional rounds has a body without empty matches on the text. */
  ghost predicate LazyFits(r: Regex, s: Subject) {
    match r
    case Seq(a, b) => LazyFits(a, s) && LazyFits(b, s)
    case Alt(a, b) => LazyFits(a, s) && LazyFits(b, s)
    case Look(_, a) => LazyFits(a, s)
    case Quant(a, min, max, greedy) => LazyFits(a, s) && (greedy || NeverEmpty(a, s) || min == max < INF)
    case _ => true
  }

  /** A condition on the pattern alone: every lazy repetition with optional rounds has a body that consumes at
      least one character, because the compiler emits no position check for lazy repetitions. */
  predicate LazyAdvances(r: Regex) {
    match r
    case Seq(a, b) => LazyAdvances(a) && LazyAdvances(b)
    case Alt(a, b) => LazyAdvances(a) && LazyAdvances(b)
    case Look(_, a) => LazyAdvances(a)
    case Quant(a, min, max, greedy) => LazyAdvances(a) && (greedy || MinWidth(a) > 0 || min == max < INF)
    case _ => true
  }

  /** A lower bound on the number of characters a match consumes. */
  function MinWidth(r: Regex): nat {
    match r
    case Char(_) => 1
    case Dot => 1
    case Any => 1
    case Class(_) => 1
    case Seq(a, b) => MinWidth(a) + MinWidth(b)
    case Alt(a, b) => if MinWidth(a) < MinWidth(b) then MinWidth(a) else MinWidth(b)
    case Quant(a, min, max, _) => if min == 0 || max == 0 then 0 else MinWidth(a)
    case _ => 0
  }
}
