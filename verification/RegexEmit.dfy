/** The code the compiler emits for a pattern (libregexp.c re_parse_term, re_parse_alternative,
    re_parse_disjunction, re_emit_range), as a function from syntax to instructions. */
module RegexEmit {
  import opened RegexSyntax
  import opened RegexCode

  /** Instructions re_need_check_advance passes over. */
  predicate NoEffect(i: Instr) {
    IsAssertion(i) || i.IPush? || i.IPushPos? || i.IDrop? || i.ISaveStart? || i.ISaveEnd?
  }

  /** re_need_check_advance: may the code leave the position unchanged? */
  ghost predicate NeedCheck(prog: seq<Instr>) {
    || (exists j :: 0 <= j < |prog| && !IsCharOp(prog[j]) && !NoEffect(prog[j]))
    || (forall j :: 0 <= j < |prog| ==> !IsCharOp(prog[j]))
  }

  ghost predicate IsSimple(prog: seq<Instr>) {
    forall j :: 0 <= j < |prog| ==> IsCharOp(prog[j]) || IsAssertion(prog[j])
  }

  function CountChars(prog: seq<Instr>): nat {
    if prog == [] then 0 else (if IsCharOp(prog[0]) then 1 else 0) + CountChars(prog[1..])
  }

  /** re_is_simple_quantifier: the number of characters of a straight-line atom, or -1. */
  ghost function SimpleCount(prog: seq<Instr>): int {
    if IsSimple(prog) then CountChars(prog) else -1
  }

  /** The inclusive bounds stored for one interval; 0xffff stands for infinity in the 16-bit form. */
  function Pair16(points: seq<nat>, i: nat): (int, int)
    requires 2 * i + 1 < |points|
  {
    (points[2 * i], if points[2 * i + 1] == 0xffff_ffff then 0xffff else (points[2 * i + 1] as int) - 1)
  }

  function Pair32(points: seq<nat>, i: nat): (int, int)
    requires 2 * i + 1 < |points|
  {
    (points[2 * i], (points[2 * i + 1] as int) - 1)
  }

  predicate Fits16(points: seq<nat>)
    requires |points| >= 2
  {
    var high := points[|points| - 1];
    (if high == 0xffff_ffff then points[|points| - 2] else high) <= 0xffff
  }

  /** re_emit_range. */
  function EmitClass(points: seq<nat>): Instr
    requires |points| % 2 == 0
  {
    var n := |points| / 2;
    if n == 0 then IChar32(0xffff_ffff)
    else if Fits16(points) then IRange(seq(n, i requires 0 <= i < n => Pair16(points, i)))
    else IRange32(seq(n, i requires 0 <= i < n => Pair32(points, i)))
  }

  function Branch(greedy: bool, off: int): Instr {
    if greedy then ISplitNextFirst(off) else ISplitGotoFirst(off)
  }

  /** The body of an optional round, with the check that it advances. */
  function Guarded(a: seq<Instr>, check: bool): seq<Instr> {
    if check then [IPushPos] + a + [ICheckAdvance] else a
  }

  function OptCode(g: seq<Instr>, greedy: bool): seq<Instr> {
    [Branch(greedy, Length(g))] + g
  }

  function StarCode(g: seq<Instr>, greedy: bool): seq<Instr> {
    [Branch(greedy, Length(g) + 5)] + g + [IGoto(-(Length(g) + 10))]
  }

  /** The loop of a counted repetition, entered with the counter on the stack. */
  function CountLoop(g: seq<Instr>, greedy: bool): seq<Instr> {
    [Branch(greedy, Length(g) + 5)] + g + [ILoop(-(Length(g) + 10))] + [IDrop]
  }

  function CountedCode(g: seq<Instr>, greedy: bool, max: nat): seq<Instr> {
    [IPush(max)] + CountLoop(g, greedy)
  }

  function PlusCode(a: seq<Instr>, greedy: bool): seq<Instr> {
    a + [Branch(!greedy, -(Length(a) + 5))]
  }

  function MandatoryLoop(a: seq<Instr>): seq<Instr> {
    a + [ILoop(-(Length(a) + 5))] + [IDrop]
  }

  function MandatoryCode(a: seq<Instr>, min: nat): seq<Instr> {
    if min == 1 then a else [IPush(min)] + MandatoryLoop(a)
  }

  function GreedyCode(a: seq<Instr>, min: nat, max: nat): seq<Instr> {
    [IGreedy(Length(a) + 1, min, max, CountChars(a))] + a + [IMatch]
  }

  /** Code for the rounds beyond the mandatory ones. */
  function OptionalCode(g: seq<Instr>, greedy: bool, min: nat, max: nat): seq<Instr>
    requires min <= max
  {
    if max == INF then StarCode(g, greedy)
    else if max > min then CountedCode(g, greedy, max - min)
    else []
  }

  ghost function QuantCode(a: seq<Instr>, min: nat, max: nat, greedy: bool): seq<Instr>
    requires min <= max
  {
    if greedy && max > 0 && SimpleCount(a) > 0 then GreedyCode(a, min, max)
    else
      var check := greedy && NeedCheck(a);
      var g := Guarded(a, check);
      if min == 0 then
        if max == 0 then []
        else if max == 1 then OptCode(g, greedy)
        else OptionalCode(g, greedy, 0, max)
      else if min == 1 && max == INF && !check then PlusCode(a, greedy)
      else MandatoryCode(a, min) + OptionalCode(g, greedy, min, max)
  }

  function AltCode(a: seq<Instr>, b: seq<Instr>): seq<Instr> {
    [ISplitNextFirst(Length(a) + 5)] + a + [IGoto(Length(b))] + b
  }

  function LookCode(negated: bool, a: seq<Instr>): seq<Instr> {
    [ILook(negated, Length(a) + 1)] + a + [IMatch]
  }

  ghost function Emit(r: Regex): seq<Instr>
    requires WellFormed(r)
  {
    match r
    case Empty => []
    case Char(c) => if c <= 0xffff then [IChar(c)] else [IChar32(c)]
    case Dot => [IDot]
    case Any => [IAny]
    case Class(points) => [EmitClass(points)]
    case LineStart => [ILineStart]
    case LineEnd => [ILineEnd]
    case WordBoundary(negated) => [IWord(negated)]
    case Seq(a, b) => Emit(a) + Emit(b)
    case Alt(a, b) => AltCode(Emit(a), Emit(b))
    case Look(negated, a) => LookCode(negated, Emit(a))
    case Quant(a, min, max, greedy) => QuantCode(Emit(a), min, max, greedy)
  }

  /** The whole program (lre_compile): an optional search loop, then the pattern between the saves of its
      start and end. */
  ghost function Program(r: Regex, sticky: bool): seq<Instr>
    requires WellFormed(r)
  {
    (if sticky then [] else [ISplitGotoFirst(6), IAny, IGoto(-11)])
    + [ISaveStart(0)] + Emit(r) + [ISaveEnd(0)] + [IMatch]
  }

  lemma LengthOne(i: Instr)
    ensures Length([i]) == Size(i)
  {}
}
