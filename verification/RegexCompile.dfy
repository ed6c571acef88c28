/** lre_compile: header, search loop, pattern, and the sizes patched into the header. */
module RegexCompile {
  import opened Byte
  import opened RegexSyntax
  import opened RegexCode
  import opened RegexEmit
  import opened RegexVm
  import opened RegexStack
  import opened RegexDepth
  import opened RegexProgram
  import opened RegexCompiler
  import opened RegexParseState

  const FLAG_MULTILINE := 4
  const FLAG_STICKY := 32

  predicate HasFlag(flags: byte, flag: int)
    requires flag > 0
  {
    flags / flag % 2 == 1
  }

  /** The code fits the jump operands. */
  ghost predicate CodeFits(r: Regex, sticky: bool)
    requires WellFormed(r)
  {
    Length(Program(r, sticky)) < 0x8000_0000
  }

  /** What a successful compilation returns: the header records flags, one capture, the exact depth of the
      counter stack and the size, and is followed by the program. */
  ghost predicate Compiled(code: seq<byte>, r: Regex, flags: byte)
    requires WellFormed(r)
  {
    var prog := Program(r, HasFlag(flags, FLAG_STICKY));
    && |code| >= HEADER_LEN && code[HEADER_LEN..] == Bytes(prog)
    && code[0] == flags && code[1] == 1 && code[2] as int == Highest(prog, 0)
    && code[3..7] == PutU32(|code| - HEADER_LEN)
  }

  /** Header with room for the sizes, search loop, pattern between its saves. */
  method EmitProgram(s: ParseState, r: Regex, flags: byte, sticky: bool) returns (ok: bool)
    requires Parsed(r) && s.byteCode == []
    modifies s
    ensures ok <==> WellFormed(r)
    ensures ok ==>
      |s.byteCode| >= HEADER_LEN && s.byteCode[0] == flags && s.byteCode[HEADER_LEN..] == Bytes(Program(r, sticky))
  {
    hide Bytes, Length, Program, Emit, PutU32;
    s.EmitOp(flags);
    s.EmitOp(0);
    s.EmitOp(0);
    s.byteCode := s.byteCode + PutU32(0);
    ghost var header := s.byteCode;
    if !sticky {
      var _ := s.EmitOpU32(OP_SPLIT_GOTO_FIRST, 6);
      s.EmitOp(OP_ANY);
      var _ := s.EmitOpU32(OP_GOTO, -11);
    }
    s.EmitOpU8(OP_SAVE_START, 0);
    ok := s.Parse(r);
    if ok {
      s.EmitOpU8(OP_SAVE_END, 0);
      s.EmitOp(OP_MATCH);
      ProgramBytes(header, s.byteCode, r, sticky);
    }
  }

  method LreCompile(r: Regex, flags: byte) returns (ok: bool, code: seq<byte>)
    requires Parsed(r)
    ensures ok <==> WellFormed(r) && Highest(Program(r, HasFlag(flags, FLAG_STICKY)), 0) <= 255
    ensures ok ==> Compiled(code, r, flags)
  {
    hide Bytes, Length, Program, Highest, PutU32, Splice;
    var s := new ParseState();
    var sticky := HasFlag(flags, FLAG_STICKY);
    ok := EmitProgram(s, r, flags, sticky);
    code := [];
    if !ok {
      return;
    }
    ghost var prog := Program(r, sticky);
    ProgramFits(r, sticky);
    ProgramSafe(r, sticky);
    HighestNatural(prog);
    var stackSize := ComputeStackSize(s.byteCode, prog);
    if stackSize < 0 {
      ok := false;
      return;
    }
    HeaderStored(s.byteCode, flags, stackSize);
    s.StoreByte(1, 1);
    s.StoreByte(2, stackSize);
    s.Store32(3, |s.byteCode| - HEADER_LEN);
    code := s.byteCode;
  }

  lemma HighestNatural(prog: seq<Instr>)
    ensures Highest(prog, 0) >= 0
  {}

  lemma HeaderStored(body: seq<byte>, flags: byte, size: byte)
    requires |body| >= HEADER_LEN && body[0] == flags
    ensures
      var code := Splice(Splice(Splice(body, 1, [1]), 2, [size]), 3, PutU32(|body| - HEADER_LEN));
      && code[0] == flags && code[1] == 1 && code[2] == size && code[3..7] == PutU32(|body| - HEADER_LEN)
      && code[HEADER_LEN..] == body[HEADER_LEN..]
  {
    hide PutU32;
  }

  lemma LoopBytes()
    ensures Bytes([ISplitGotoFirst(6), IAny, IGoto(-11)])
         == ([OP_SPLIT_GOTO_FIRST] + PutU32(6)) + [OP_ANY] + ([OP_GOTO] + PutU32(-11))
  {
    hide Bytes, PutU32;
    BytesAround(ISplitGotoFirst(6), [IAny], IGoto(-11));
    BytesOne(IAny);
    assert [ISplitGotoFirst(6)] + [IAny] + [IGoto(-11)] == [ISplitGotoFirst(6), IAny, IGoto(-11)];
  }

  lemma ProgramBytes(header: seq<byte>, code: seq<byte>, r: Regex, sticky: bool)
    requires WellFormed(r) && |header| == HEADER_LEN
    requires
      var loop := if sticky then [] else ([OP_SPLIT_GOTO_FIRST] + PutU32(6)) + [OP_ANY] + ([OP_GOTO] + PutU32(-11));
      code == header + loop + [OP_SAVE_START, 0] + Bytes(Emit(r)) + [OP_SAVE_END, 0] + [OP_MATCH]
    ensures |code| >= HEADER_LEN && code[HEADER_LEN..] == Bytes(Program(r, sticky)) && code[..HEADER_LEN] == header
  {
    hide Bytes, PutU32, Emit, Length;
    var loop: seq<Instr> := if sticky then [] else [ISplitGotoFirst(6), IAny, IGoto(-11)];
    LoopBytes();
    BytesNone();
    BytesThen(loop, ISaveStart(0));
    BytesConcat(loop + [ISaveStart(0)], Emit(r));
    BytesThen(loop + [ISaveStart(0)] + Emit(r), ISaveEnd(0));
    BytesThen(loop + [ISaveStart(0)] + Emit(r) + [ISaveEnd(0)], IMatch);
    assert code == header + Bytes(Program(r, sticky));
  }

  lemma ProgramFits(r: Regex, sticky: bool)
    requires WellFormed(r)
    ensures RangesFit(Program(r, sticky))
  {
    hide Emit;
    EmitFits(r);
  }

  lemma ProgramSafe(r: Regex, sticky: bool)
    requires WellFormed(r)
    ensures Safe(Program(r, sticky))
  {
    hide Safe, Program, Body;
    BodySafe(r, sticky);
    MatchSafe();
    SafeConcat(Body(r, sticky), [IMatch]);
  }

  lemma MatchSafe()
    ensures Safe([IMatch])
  {
    NetOne(IMatch);
  }

  // Operands fit when the code is not too long.

  lemma {:induction false} CountBound(prog: seq<Instr>)
    ensures CountChars(prog) <= Length(prog)
  {
    if prog != [] {
      CountBound(prog[1..]);
    }
  }

  lemma ClassOperands(points: seq<nat>)
    requires ClassOk(points) && |points| / 2 < 65535
    ensures InstrOk(EmitClass(points))
  {
    if |points| / 2 > 0 {
      assert forall i :: 0 <= i < |points| ==> points[i] <= points[|points| - 1];
    }
  }

  lemma OkOne(i: Instr)
    ensures CodeOk([i]) <==> InstrOk(i)
  {
    if CodeOk([i]) {
      assert InstrOk([i][0]);
    }
  }

  lemma OkAround(i: Instr, a: seq<Instr>, j: Instr)
    requires InstrOk(i) && CodeOk(a) && InstrOk(j)
    ensures CodeOk([i] + a + [j])
  {
    hide InstrOk;
    OkOne(i);
    OkOne(j);
    CodeOkSplit([i], a);
    CodeOkSplit([i] + a, [j]);
  }

  lemma GuardOperands(a: seq<Instr>, check: bool)
    requires CodeOk(a)
    ensures CodeOk(Guarded(a, check)) && Length(a) <= Length(Guarded(a, check)) <= Length(a) + 2
  {
    hide CodeOk, Length;
    OkAround(IPushPos, a, ICheckAdvance);
    BytesAround(IPushPos, a, ICheckAdvance);
  }

  lemma MandatoryOperands(a: seq<Instr>, min: nat)
    requires CodeOk(a) && min <= INF && Length(MandatoryCode(a, min)) < 0x8000_0000
    ensures CodeOk(MandatoryCode(a, min))
  {
    hide CodeOk, Length;
    if min != 1 {
      var p, k := IPush(min), ILoop(-(Length(a) + 5));
      BytesThen(a, k);
      BytesThen(a + [k], IDrop);
      BytesBefore(p, MandatoryLoop(a));
      OkAround(p, a, k);
      OkOne(IDrop);
      CodeOkSplit([p] + a + [k], [IDrop]);
      assert MandatoryCode(a, min) == [p] + a + [k] + [IDrop];
    }
  }

  lemma OptionalOperands(g: seq<Instr>, greedy: bool, min: nat, max: nat)
    requires CodeOk(g) && min <= max <= INF && Length(OptionalCode(g, greedy, min, max)) < 0x8000_0000
    ensures CodeOk(OptionalCode(g, greedy, min, max))
  {
    hide CodeOk, Length;
    var i := Branch(greedy, Length(g) + 5);
    if max == INF {
      var k := IGoto(-(Length(g) + 10));
      BytesAround(i, g, k);
      OkAround(i, g, k);
    } else if max > min {
      var k, p := ILoop(-(Length(g) + 10)), IPush(max - min);
      BytesAround(i, g, k);
      BytesThen([i] + g + [k], IDrop);
      BytesBefore(p, CountLoop(g, greedy));
      OkAround(i, g, k);
      OkOne(IDrop);
      OkOne(p);
      CodeOkSplit([i] + g + [k], [IDrop]);
      CodeOkSplit([p], CountLoop(g, greedy));
    } else {
      OkNone();
    }
  }

  lemma OkNone()
    ensures CodeOk([])
  {}

  lemma QuantOperands(a: seq<Instr>, min: nat, max: nat, greedy: bool)
    requires min <= max <= INF && Length(QuantCode(a, min, max, greedy)) < 0x8000_0000 && (max > 0 ==> CodeOk(a))
    ensures CodeOk(QuantCode(a, min, max, greedy))
  {
    hide CodeOk, Length, MandatoryCode, OptionalCode, NeedCheck, SimpleCount, CountChars, Guarded;
    if greedy && max > 0 && SimpleCount(a) > 0 {
      var i := IGreedy(Length(a) + 1, min, max, CountChars(a));
      BytesAround(i, a, IMatch);
      CountBound(a);
      OkAround(i, a, IMatch);
    } else {
      var check := greedy && NeedCheck(a);
      var g := Guarded(a, check);
      OkNone();
      if max > 0 {
        GuardOperands(a, check);
        if min == 0 && max == 1 {
          OkOne(Branch(greedy, Length(g)));
          BytesBefore(Branch(greedy, Length(g)), g);
          CodeOkSplit([Branch(greedy, Length(g))], g);
        } else if min == 0 {
          OptionalOperands(g, greedy, 0, max);
        } else if min == 1 && max == INF && !check {
          var k := Branch(!greedy, -(Length(a) + 5));
          BytesThen(a, k);
          OkOne(k);
          CodeOkSplit(a, [k]);
        } else {
          BytesConcat(MandatoryCode(a, min), OptionalCode(g, greedy, min, max));
          MandatoryOperands(a, min);
          OptionalOperands(g, greedy, min, max);
          CodeOkSplit(MandatoryCode(a, min), OptionalCode(g, greedy, min, max));
        }
      }
    }
  }

  /** A repetition is no shorter than its body, unless it drops it. */
  lemma QuantLonger(a: seq<Instr>, min: nat, max: nat, greedy: bool)
    requires 0 < max && min <= max
    ensures Length(a) <= Length(QuantCode(a, min, max, greedy))
  {
    hide Length, NeedCheck, SimpleCount, CountChars;
    var check := greedy && NeedCheck(a);
    var g := Guarded(a, check);
    if greedy && SimpleCount(a) > 0 {
      BytesAround(IGreedy(Length(a) + 1, min, max, CountChars(a)), a, IMatch);
    } else {
      GuardBytes(a, check);
      if min == 0 && max == 1 {
        BytesBefore(Branch(greedy, Length(g)), g);
      } else if min == 0 {
        OptionalLonger(g, greedy, 0, max);
      } else if min == 1 && max == INF && !check {
        BytesThen(a, Branch(!greedy, -(Length(a) + 5)));
      } else {
        MandatoryLonger(a, min);
        BytesConcat(MandatoryCode(a, min), OptionalCode(g, greedy, min, max));
      }
    }
  }

  lemma OptionalLonger(g: seq<Instr>, greedy: bool, min: nat, max: nat)
    requires min < max
    ensures Length(g) <= Length(OptionalCode(g, greedy, min, max))
  {
    hide Length;
    var i := Branch(greedy, Length(g) + 5);
    if max == INF {
      BytesAround(i, g, IGoto(-(Length(g) + 10)));
    } else {
      BytesAround(i, g, ILoop(-(Length(g) + 10)));
      BytesThen([i] + g + [ILoop(-(Length(g) + 10))], IDrop);
      BytesBefore(IPush(max - min), CountLoop(g, greedy));
    }
  }

  lemma MandatoryLonger(a: seq<Instr>, min: nat)
    ensures Length(a) <= Length(MandatoryCode(a, min))
  {
    hide Length;
    BytesThen(a, ILoop(-(Length(a) + 5)));
    BytesThen(a + [ILoop(-(Length(a) + 5))], IDrop);
    BytesBefore(IPush(min), MandatoryLoop(a));
  }

  /** All operands of the emitted code fit their fields. */
  lemma {:induction false} EmitOperands(r: Regex)
    requires WellFormed(r) && Length(Emit(r)) < 0x8000_0000
    ensures CodeOk(Emit(r))
    decreases r
  {
    hide CodeOk, Length, QuantCode, InstrOk;
    match r {
      case Empty => OkNone();
      case Seq(a, b) =>
        BytesConcat(Emit(a), Emit(b));
        EmitOperands(a);
        EmitOperands(b);
        CodeOkSplit(Emit(a), Emit(b));
      case Alt(a, b) => AltOperands(a, b);
      case Look(negated, a) =>
        var i := ILook(negated, Length(Emit(a)) + 1);
        BytesAround(i, Emit(a), IMatch);
        EmitOperands(a);
        SmallOffset(i);
        OkAround(i, Emit(a), IMatch);
      case Quant(a, min, max, greedy) =>
        if max > 0 {
          QuantLonger(Emit(a), min, max, greedy);
          EmitOperands(a);
        }
        QuantOperands(Emit(a), min, max, greedy);
      case _ => AtomOperands(r);
    }
  }

  lemma SmallOffset(i: Instr)
    requires (IsJump(i) && OffOk(i.off)) || i.IMatch?
    ensures InstrOk(i) && InstrOk(IMatch)
  {}

  lemma AltOperands(a: Regex, b: Regex)
    requires WellFormed(Alt(a, b)) && Length(Emit(Alt(a, b))) < 0x8000_0000
    ensures CodeOk(Emit(Alt(a, b)))
    decreases Alt(a, b), 0
  {
    hide CodeOk, Length, QuantCode, InstrOk;
    var i, k := ISplitNextFirst(Length(Emit(a)) + 5), IGoto(Length(Emit(b)));
    BytesAround(i, Emit(a), k);
    BytesConcat([i] + Emit(a) + [k], Emit(b));
    EmitOperands(a);
    EmitOperands(b);
    SmallOffset(i);
    SmallOffset(k);
    OkAround(i, Emit(a), k);
    CodeOkSplit([i] + Emit(a) + [k], Emit(b));
  }

  lemma AtomOperands(r: Regex)
    requires WellFormed(r) && !r.Empty? && !r.Seq? && !r.Alt? && !r.Look? && !r.Quant?
    ensures CodeOk(Emit(r))
  {
    if r.Class? {
      ClassOperands(r.points);
    }
  }

  lemma ProgramOperands(r: Regex, sticky: bool)
    requires WellFormed(r) && CodeFits(r, sticky)
    ensures CodeOk(Program(r, sticky))
  {
    hide CodeOk, Length, Emit, InstrOk;
    var loop: seq<Instr> := if sticky then [] else [ISplitGotoFirst(6), IAny, IGoto(-11)];
    var x := loop + [ISaveStart(0)];
    BytesConcat(x, Emit(r));
    BytesThen(x + Emit(r), ISaveEnd(0));
    BytesThen(x + Emit(r) + [ISaveEnd(0)], IMatch);
    EmitOperands(r);
    FixedOperands(sticky);
    CodeOkSplit(x, Emit(r));
    OkOne(ISaveEnd(0));
    OkOne(IMatch);
    CodeOkSplit(x + Emit(r), [ISaveEnd(0)]);
    CodeOkSplit(x + Emit(r) + [ISaveEnd(0)], [IMatch]);
  }

  lemma FixedOperands(sticky: bool)
    ensures CodeOk((if sticky then [] else [ISplitGotoFirst(6), IAny, IGoto(-11)]) + [ISaveStart(0)])
    ensures InstrOk(ISaveEnd(0)) && InstrOk(IMatch)
  {}

  /** The compiled program stands behind the header. */
  lemma CompiledAt(code: seq<byte>, r: Regex, flags: byte)
    requires WellFormed(r) && Compiled(code, r, flags) && |code| < 0x8000_0000
    ensures At(code, HEADER_LEN, Program(r, HasFlag(flags, FLAG_STICKY)))
  {
    hide CodeOk, Bytes, Length, Program, Highest, PutU32;
    var prog := Program(r, HasFlag(flags, FLAG_STICKY));
    LengthIs(prog);
    ProgramOperands(r, HasFlag(flags, FLAG_STICKY));
    assert code[HEADER_LEN..HEADER_LEN + Length(prog)] == code[HEADER_LEN..];
  }

  /** The whole engine: what lre_compile returns, run from position p, halts with the match the backtracking
      semantics finds first, or with no match. */
  lemma CompiledRuns(code: seq<byte>, r: Regex, flags: byte, s: Subject, p: nat)
    requires WellFormed(r) && LazyFits(r, s) && Compiled(code, r, flags) && |code| < 0x8000_0000
    requires SubjectOk(s) && p <= |s.text|
    ensures Reaches(Machine(code, s), Run(HEADER_LEN, p, [], NO_CAPTURE, []),
                    Outcome(Search(r, s, p, HasFlag(flags, FLAG_STICKY))))
  {
    hide At, Compiled, SubjectOk, Reaches;
    CompiledAt(code, r, flags);
    ProgramRuns(Machine(code, s), HEADER_LEN, r, HasFlag(flags, FLAG_STICKY), p);
  }
}
