/** The one-pass compiler (libregexp.c re_parse_term, re_parse_disjunction, lre_compile): it appends to the
    byte code, moves what it already emitted to make room in front of it, patches jump operands, and
    copies atoms. The syntax tree stands for the text the parser reads. */
module RegexCompiler {
  import opened Byte
  import opened RegexSyntax
  import opened RegexCode
  import opened RegexEmit
  import opened RegexStack

  const HEADER_LEN := 7
  const STACK_SIZE_MAX := 255

  const OP_CHAR: byte := 1
  const OP_CHAR32: byte := 2
  const OP_DOT: byte := 3
  const OP_ANY: byte := 4
  const OP_LINE_START: byte := 5
  const OP_LINE_END: byte := 6
  const OP_GOTO: byte := 7
  const OP_SPLIT_GOTO_FIRST: byte := 8
  const OP_SPLIT_NEXT_FIRST: byte := 9
  const OP_MATCH: byte := 10
  const OP_SAVE_START: byte := 11
  const OP_SAVE_END: byte := 12
  const OP_LOOP: byte := 14
  const OP_PUSH_I32: byte := 15
  const OP_DROP: byte := 16
  const OP_WORD_BOUNDARY: byte := 17
  const OP_NOT_WORD_BOUNDARY: byte := 18
  const OP_RANGE: byte := 21
  const OP_RANGE32: byte := 22
  const OP_LOOKAHEAD: byte := 23
  const OP_PUSH_CHAR_POS: byte := 25
  const OP_CHECK_ADVANCE: byte := 26
  const OP_SIMPLE_GREEDY_QUANT: byte := 28

  // Facts about the bytes of the emitted code.

  lemma BytesOne(i: Instr)
    ensures Bytes([i]) == Encode(i) && Length([i]) == Size(i)
  {
    assert [i][1..] == [];
  }

  lemma BytesAround(i: Instr, a: seq<Instr>, j: Instr)
    ensures Bytes([i] + a + [j]) == Encode(i) + Bytes(a) + Encode(j)
    ensures Length([i] + a + [j]) == Size(i) + Length(a) + Size(j)
  {
    hide Bytes, Length;
    BytesConcat([i], a);
    BytesConcat([i] + a, [j]);
    BytesOne(i);
    BytesOne(j);
  }

  lemma BytesThen(a: seq<Instr>, j: Instr)
    ensures Bytes(a + [j]) == Bytes(a) + Encode(j) && Length(a + [j]) == Length(a) + Size(j)
  {
    hide Bytes, Length;
    BytesConcat(a, [j]);
    BytesOne(j);
  }

  lemma BytesBefore(i: Instr, a: seq<Instr>)
    ensures Bytes([i] + a) == Encode(i) + Bytes(a) && Length([i] + a) == Size(i) + Length(a)
  {
    hide Bytes, Length;
    BytesConcat([i], a);
    BytesOne(i);
  }

  /** The range counts of all instructions fit their field. */
  ghost predicate RangesFit(prog: seq<Instr>) {
    forall j :: 0 <= j < |prog| ==> RangeFits(prog[j])
  }

  predicate RangeFits(i: Instr) {
    && (i.IRange? ==> |i.pairs| < 0x1_0000)
    && (i.IRange32? ==> |i.pairs| < 0x1_0000)
  }

  lemma FitsConcat(a: seq<Instr>, b: seq<Instr>)
    requires RangesFit(a) && RangesFit(b)
    ensures RangesFit(a + b)
  {}

  lemma GuardFits(a: seq<Instr>, check: bool)
    requires RangesFit(a)
    ensures RangesFit(Guarded(a, check))
  {}

  lemma MandatoryFits(a: seq<Instr>, min: nat)
    requires RangesFit(a)
    ensures RangesFit(MandatoryCode(a, min))
  {
    hide Length;
  }

  lemma OptionalFits(g: seq<Instr>, greedy: bool, min: nat, max: nat)
    requires RangesFit(g) && min <= max
    ensures RangesFit(OptionalCode(g, greedy, min, max))
  {
    hide Length;
  }

  lemma QuantFits(a: seq<Instr>, min: nat, max: nat, greedy: bool)
    requires RangesFit(a) && min <= max
    ensures RangesFit(QuantCode(a, min, max, greedy))
  {
    hide Length, NeedCheck, SimpleCount, Guarded, MandatoryCode, OptionalCode, CountChars;
    var g := Guarded(a, greedy && NeedCheck(a));
    GuardFits(a, greedy && NeedCheck(a));
    MandatoryFits(a, min);
    OptionalFits(g, greedy, min, max);
    FitsConcat(MandatoryCode(a, min), OptionalCode(g, greedy, min, max));
  }

  lemma {:induction false} EmitFits(r: Regex)
    requires WellFormed(r)
    ensures RangesFit(Emit(r))
    decreases r
  {
    hide Length, QuantCode;
    match r {
      case Seq(a, b) =>
        EmitFits(a);
        EmitFits(b);
        FitsConcat(Emit(a), Emit(b));
      case Alt(a, b) =>
        EmitFits(a);
        EmitFits(b);
      case Look(_, a) => EmitFits(a);
      case Quant(a, min, max, greedy) =>
        EmitFits(a);
        QuantFits(Emit(a), min, max, greedy);
      case _ =>
    }
  }

  // Scans of emitted code.

  /** The length of the instruction at pos: the opcode table, and for ranges the count stored behind the
      opcode. */
  function LengthAt(code: seq<byte>, pos: nat): nat
    requires pos < |code|
  {
    var size := OpSize(code[pos]);
    if code[pos] == OP_RANGE && pos + 3 <= |code| then size + GetU16(code, pos + 1) * 4
    else if code[pos] == OP_RANGE32 && pos + 3 <= |code| then size + GetU16(code, pos + 1) * 8
    else size
  }

  /** The scan reads the instruction it stands at. */
  lemma ScanAt(code: seq<byte>, start: nat, prog: seq<Instr>, j: nat)
    requires start <= |code| && code[start..] == Bytes(prog) && RangesFit(prog) && j < |prog|
    ensures
      var pos := start + Length(prog[..j]);
      && pos < |code| && code[pos] == Opcode(prog[j]) && LengthAt(code, pos) == Size(prog[j])
      && pos + Size(prog[j]) == start + Length(prog[..j + 1]) <= |code|
  {
    hide *;
    var i := prog[j];
    BytesAt(prog, j);
    FitsAt(prog, j);
    LengthIs(prog[..j]);
    InstrReads(code, start + Length(prog[..j]), i, Bytes(prog[..j]), Bytes(prog[j + 1..]), start);
  }

  /** The bytes before, of, and after an instruction. */
  lemma BytesAt(prog: seq<Instr>, j: nat)
    requires j < |prog|
    ensures Bytes(prog) == Bytes(prog[..j]) + Encode(prog[j]) + Bytes(prog[j + 1..])
    ensures Length(prog[..j + 1]) == Length(prog[..j]) + Size(prog[j])
  {
    hide *;
    Cut(prog, j);
    CutPrefix(prog, j);
    BytesConcat(prog[..j], [prog[j]]);
    BytesConcat(prog[..j] + [prog[j]], prog[j + 1..]);
    BytesOne(prog[j]);
  }

  lemma CutPrefix<T>(prog: seq<T>, j: nat)
    requires j < |prog|
    ensures prog[..j + 1] == prog[..j] + [prog[j]]
  {}

  lemma FitsAt(prog: seq<Instr>, j: nat)
    requires RangesFit(prog) && j < |prog|
    ensures RangeFits(prog[j])
  {}

  lemma InstrReads(code: seq<byte>, pos: nat, i: Instr, a: seq<byte>, b: seq<byte>, start: nat)
    requires start <= |code| && code[start..] == a + Encode(i) + b && pos == start + |a| && RangeFits(i)
    ensures pos < |code| && code[pos] == Opcode(i) && LengthAt(code, pos) == Size(i) && pos + Size(i) <= |code|
  {
    hide PutPairs, PutU32, PutU16, GetU16;
    assert |code| == start + |a| + Size(i) + |b|;
    assert code[pos] == code[start..][|a|] == Encode(i)[0];
    if i.IRange? || i.IRange32? {
      var n := |i.pairs|;
      assert code[pos + 1..pos + 3] == PutU16(n) by {
        forall k | 0 <= k < 2
          ensures code[pos + 1..pos + 3][k] == PutU16(n)[k]
        {
          assert code[start..][|a| + 1 + k] == Encode(i)[1 + k];
        }
      }
      GetAt(code, pos + 1, n);
    }
  }

  predicate IsCharOpcode(op: byte) {
    op in [OP_RANGE, OP_RANGE32, OP_CHAR, OP_CHAR32, OP_DOT, OP_ANY]
  }

  predicate IsAssertionOpcode(op: byte) {
    op in [OP_LINE_START, OP_LINE_END, OP_WORD_BOUNDARY, OP_NOT_WORD_BOUNDARY]
  }

  /** Opcodes re_need_check_advance passes over; the ones outside this model are not emitted. */
  predicate IsIdleOpcode(op: byte) {
    IsAssertionOpcode(op) || op in [OP_PUSH_I32, OP_PUSH_CHAR_POS, OP_DROP, OP_SAVE_START, OP_SAVE_END]
  }

  lemma OpcodeClass(i: Instr)
    ensures IsCharOpcode(Opcode(i)) <==> IsCharOp(i)
    ensures IsAssertionOpcode(Opcode(i)) <==> IsAssertion(i)
    ensures IsIdleOpcode(Opcode(i)) <==> NoEffect(i)
    ensures Opcode(i) == OP_PUSH_I32 || Opcode(i) == OP_PUSH_CHAR_POS <==> Delta(i) == 1
    ensures Opcode(i) == OP_DROP || Opcode(i) == OP_CHECK_ADVANCE <==> Delta(i) == -1
    ensures -1 <= Delta(i) <= 1
  {}

  /** re_need_check_advance. */
  method NeedCheckAdvance(code: seq<byte>, start: nat, ghost prog: seq<Instr>) returns (ret: bool)
    requires start <= |code| && code[start..] == Bytes(prog) && RangesFit(prog)
    ensures ret == NeedCheck(prog)
  {
    hide Bytes, Length, LengthAt, IsCharOpcode, IsIdleOpcode, RangesFit;
    ret := true;
    var pos := start;
    ghost var j := 0;
    EndOfCode(code, start, prog);
    while pos < |code|
      invariant j <= |prog| && pos == start + Length(prog[..j]) && (pos >= |code| <==> j == |prog|)
      invariant forall k :: 0 <= k < j ==> IsCharOp(prog[k]) || NoEffect(prog[k])
      invariant ret <==> forall k :: 0 <= k < j ==> !IsCharOp(prog[k])
      decreases |prog| - j
    {
      ScanAt(code, start, prog, j);
      OpcodeClass(prog[j]);
      EndAt(code, start, prog, j + 1);
      if IsCharOpcode(code[pos]) {
        ret := false;
      } else if !IsIdleOpcode(code[pos]) {
        return true;
      }
      pos := pos + LengthAt(code, pos);
      j := j + 1;
    }
  }

  lemma EndOfCode(code: seq<byte>, start: nat, prog: seq<Instr>)
    requires start <= |code| && code[start..] == Bytes(prog)
    ensures Length(prog[..0]) == 0 && (start >= |code| <==> 0 == |prog|)
  {
    assert prog[..0] == [];
  }

  lemma EndAt(code: seq<byte>, start: nat, prog: seq<Instr>, j: nat)
    requires start <= |code| && code[start..] == Bytes(prog) && j <= |prog|
    ensures start + Length(prog[..j]) <= |code| && (start + Length(prog[..j]) == |code| <==> j == |prog|)
  {
    assert prog == prog[..j] + prog[j..];
    BytesConcat(prog[..j], prog[j..]);
  }

  /** re_is_simple_quantifier. */
  method IsSimpleQuantifier(code: seq<byte>, start: nat, ghost prog: seq<Instr>) returns (count: int)
    requires start <= |code| && code[start..] == Bytes(prog) && RangesFit(prog)
    ensures count == SimpleCount(prog)
  {
    hide Bytes, Length, LengthAt, IsCharOpcode, IsAssertionOpcode, RangesFit, CountChars, SimpleCount;
    count := 0;
    var pos := start;
    ghost var j := 0;
    EndOfCode(code, start, prog);
    CountNext(prog, 0);
    while pos < |code|
      invariant j <= |prog| && pos == start + Length(prog[..j]) && (pos >= |code| <==> j == |prog|)
      invariant forall k :: 0 <= k < j ==> IsCharOp(prog[k]) || IsAssertion(prog[k])
      invariant count == CountChars(prog[..j])
      decreases |prog| - j
    {
      ScanAt(code, start, prog, j);
      OpcodeClass(prog[j]);
      EndAt(code, start, prog, j + 1);
      CountNext(prog, j);
      if IsCharOpcode(code[pos]) {
        count := count + 1;
      } else if !IsAssertionOpcode(code[pos]) {
        NotSimple(prog, j);
        return -1;
      }
      pos := pos + LengthAt(code, pos);
      j := j + 1;
    }
    AllSimple(prog);
  }

  lemma AllSimple(prog: seq<Instr>)
    requires forall k :: 0 <= k < |prog| ==> IsCharOp(prog[k]) || IsAssertion(prog[k])
    ensures SimpleCount(prog) == CountChars(prog[..|prog|])
  {
    assert prog[..|prog|] == prog;
  }

  lemma NotSimple(prog: seq<Instr>, j: nat)
    requires j < |prog| && !IsCharOp(prog[j]) && !IsAssertion(prog[j])
    ensures SimpleCount(prog) == -1
  {}

  lemma CountNext(prog: seq<Instr>, j: nat)
    ensures CountChars(prog[..0]) == 0
    ensures j < |prog| ==> CountChars(prog[..j + 1]) == CountChars(prog[..j]) + (if IsCharOp(prog[j]) then 1 else 0)
  {
    assert prog[..0] == [];
    if j < |prog| {
      assert prog[..j + 1] == prog[..j] + [prog[j]];
      CountSnoc(prog[..j], prog[j]);
    }
  }

  lemma {:induction false} CountSnoc(a: seq<Instr>, i: Instr)
    ensures CountChars(a + [i]) == CountChars(a) + (if IsCharOp(i) then 1 else 0)
  {
    if a == [] {
      assert a + [i] == [i] && [i][1..] == [];
    } else {
      assert (a + [i])[1..] == a[1..] + [i];
      CountSnoc(a[1..], i);
    }
  }

  /** compute_stack_size: the greatest depth of a straight scan of the code behind the header, or -1 if it
      exceeds the limit. */
  method ComputeStackSize(code: seq<byte>, ghost prog: seq<Instr>) returns (max: int)
    requires HEADER_LEN <= |code| && code[HEADER_LEN..] == Bytes(prog) && RangesFit(prog) && Safe(prog)
    ensures max == if Highest(prog, 0) > STACK_SIZE_MAX then -1 else Highest(prog, 0)
  {
    hide Bytes, Length, LengthAt, RangesFit, Safe, Highest, Net, Delta;
    var size := 0;
    max := 0;
    var pos := HEADER_LEN;
    ghost var j := 0;
    EndOfCode(code, HEADER_LEN, prog);
    HighestNext(prog, 0);
    while pos < |code|
      invariant j <= |prog| && pos == HEADER_LEN + Length(prog[..j]) && (pos >= |code| <==> j == |prog|)
      invariant size == Net(prog[..j]) && 0 <= size
      invariant max == Highest(prog[..j], 0) && 0 <= max <= STACK_SIZE_MAX && size <= max
      decreases |prog| - j
    {
      ScanAt(code, HEADER_LEN, prog, j);
      OpcodeClass(prog[j]);
      EndAt(code, HEADER_LEN, prog, j + 1);
      HighestNext(prog, j);
      HighestGrows(prog, j + 1);
      PopsSafely(prog, j);
      if code[pos] == OP_PUSH_I32 || code[pos] == OP_PUSH_CHAR_POS {
        size := size + 1;
        if size > max {
          if size > STACK_SIZE_MAX {
            return -1;
          }
          max := size;
        }
      } else if code[pos] == OP_DROP || code[pos] == OP_CHECK_ADVANCE {
        assert size > 0;
        size := size - 1;
      }
      pos := pos + LengthAt(code, pos);
      j := j + 1;
    }
    assert prog[..|prog|] == prog;
  }

  lemma PopsSafely(prog: seq<Instr>, j: nat)
    requires Safe(prog) && j < |prog|
    ensures Delta(prog[j]) == -1 ==> Net(prog[..j]) >= 1
  {
    hide Length, Boundary;
    assert InstrSafe(prog, j);
  }

  lemma HighestNext(prog: seq<Instr>, j: nat)
    ensures Highest(prog[..0], 0) == 0 && Net(prog[..0]) == 0
    ensures j < |prog| ==>
              var d := Net(prog[..j]) + Delta(prog[j]);
              && Net(prog[..j + 1]) == d
              && Highest(prog[..j + 1], 0) == if d > Highest(prog[..j], 0) then d else Highest(prog[..j], 0)
  {
    assert prog[..0] == [];
    if j < |prog| {
      assert prog[..j + 1] == prog[..j] + [prog[j]];
      HighestSnoc(prog[..j], prog[j], 0);
    }
  }

  lemma {:induction false} HighestSnoc(a: seq<Instr>, i: Instr, d0: int)
    ensures Net(a + [i]) == Net(a) + Delta(i)
    ensures
      var d := d0 + Net(a) + Delta(i);
      Highest(a + [i], d0) == if d > Highest(a, d0) then d else Highest(a, d0)
    decreases |a|
  {
    hide Delta;
    if a == [] {
      assert a + [i] == [i] && [i][1..] == [];
      HighestOne(i, d0);
    } else {
      assert (a + [i])[1..] == a[1..] + [i];
      HighestSnoc(a[1..], i, d0 + Delta(a[0]));
    }
  }

  lemma HighestOne(i: Instr, d: int)
    ensures Net([i]) == Delta(i) && Highest([i], d) == if d + Delta(i) > d then d + Delta(i) else d
  {
    assert [i][1..] == [];
  }

  lemma HighestGrows(prog: seq<Instr>, j: nat)
    requires j <= |prog|
    ensures Highest(prog[..j], 0) <= Highest(prog, 0)
  {
    HighestPrefix(prog[..j], prog[j..], 0);
    assert prog[..j] + prog[j..] == prog;
  }

  lemma {:induction false} HighestPrefix(a: seq<Instr>, b: seq<Instr>, d: int)
    ensures Highest(a, d) <= Highest(a + b, d)
    decreases |a|
  {
    if a == [] {
      assert a + b == b;
    } else {
      assert (a + b)[1..] == a[1..] + b;
      HighestPrefix(a[1..], b, d + Delta(a[0]));
    }
  }
}
