/** Emission of byte code (libregexp.c re_parse_term, re_parse_alternative, re_parse_disjunction and
    lre_compile). Each operation is proved against the instruction list it stands for. */
module RegexParseState {
  import opened Byte
  import opened RegexSyntax
  import opened RegexCode
  import opened RegexEmit
  import opened RegexCompiler

  /** buf with the bytes b written over those at pos. */
  function Splice(buf: seq<byte>, pos: nat, b: seq<byte>): (s: seq<byte>)
    requires pos + |b| <= |buf|
    ensures |s| == |buf|
  {
    buf[..pos] + b + buf[pos + |b|..]
  }

  lemma SpliceMore(buf: seq<byte>, pos: nat, b: seq<byte>, c: seq<byte>)
    requires pos + |b| + |c| <= |buf|
    ensures Splice(Splice(buf, pos, b), pos + |b|, c) == Splice(buf, pos, b + c)
  {}

  /** A gap of len bytes at pos, then filled. */
  lemma SpliceGap(buf: seq<byte>, gapped: seq<byte>, pos: nat, b: seq<byte>)
    requires pos <= |buf| && |gapped| == |buf| + |b| && gapped[..pos] == buf[..pos] && gapped[pos + |b|..] == buf[pos..]
    ensures Splice(gapped, pos, b) == buf[..pos] + b + buf[pos..]
  {}

  function SplitOp(greedy: bool): byte {
    if greedy then OP_SPLIT_NEXT_FIRST else OP_SPLIT_GOTO_FIRST
  }

  lemma EncodeBranch(greedy: bool, off: int)
    ensures Encode(Branch(greedy, off)) == [SplitOp(greedy)] + PutU32(off)
  {}

  class ParseState {
    var byteCode: seq<byte>

    constructor ()
      ensures byteCode == []
    {
      byteCode := [];
    }

    method EmitOp(op: byte)
      modifies this
      ensures byteCode == old(byteCode) + [op]
    {
      byteCode := byteCode + [op];
    }

    method EmitOpU8(op: byte, val: byte)
      modifies this
      ensures byteCode == old(byteCode) + [op, val]
    {
      byteCode := byteCode + [op];
      byteCode := byteCode + [val];
    }

    method EmitOpU16(op: byte, val: int)
      modifies this
      ensures byteCode == old(byteCode) + ([op] + PutU16(val))
    {
      byteCode := byteCode + [op];
      byteCode := byteCode + PutU16(val);
    }

    /** Returns the address of the operand. */
    method EmitOpU32(op: byte, val: int) returns (pos: nat)
      modifies this
      ensures byteCode == old(byteCode) + ([op] + PutU32(val))
      ensures pos == old(|byteCode|) + 1
    {
      byteCode := byteCode + [op];
      pos := |byteCode|;
      byteCode := byteCode + PutU32(val);
    }

    /** The operand is relative to its own end. */
    method EmitGoto(op: byte, val: nat)
      modifies this
      ensures byteCode == old(byteCode) + ([op] + PutU32(val - (old(|byteCode|) + 5)))
    {
      byteCode := byteCode + [op];
      var pos := |byteCode|;
      byteCode := byteCode + PutU32(val - (pos + 4));
    }

    /** dbuf_insert: the tail moves up and leaves a gap of stale bytes. */
    method Insert(pos: nat, len: nat)
      requires pos <= |byteCode|
      modifies this
      ensures |byteCode| == old(|byteCode|) + len
      ensures byteCode[..pos] == old(byteCode[..pos]) && byteCode[pos + len..] == old(byteCode[pos..])
    {
      var stale :=
        if pos + len <= |byteCode| then byteCode[pos..pos + len]
        else byteCode[pos..] + seq(pos + len - |byteCode|, i => 0);
      byteCode := byteCode[..pos] + stale + byteCode[pos..];
    }

    method StoreByte(pos: nat, b: byte)
      requires pos < |byteCode|
      modifies this
      ensures byteCode == Splice(old(byteCode), pos, [b])
    {
      byteCode := byteCode[pos := b];
    }

    /** put_u32 */
    method Store32(pos: nat, val: int)
      requires pos + 4 <= |byteCode|
      modifies this
      ensures byteCode == Splice(old(byteCode), pos, PutU32(val))
    {
      byteCode := byteCode[..pos] + PutU32(val) + byteCode[pos + 4..];
    }

    /** dbuf_put_self: appends a copy of earlier code. */
    method PutSelf(offset: nat, len: nat)
      requires offset + len <= |byteCode|
      modifies this
      ensures byteCode == old(byteCode) + old(byteCode[offset..offset + len])
    {
      byteCode := byteCode + byteCode[offset..offset + len];
    }

    /** An opcode and its operand over a gap. */
    method StoreOp32(pos: nat, op: byte, val: int)
      requires pos + 5 <= |byteCode|
      modifies this
      ensures byteCode == Splice(old(byteCode), pos, [op] + PutU32(val))
    {
      hide Splice, PutU32;
      StoreByte(pos, op);
      Store32(pos + 1, val);
      SpliceMore(old(byteCode), pos, [op], PutU32(val));
    }

    /** Room for an instruction with one operand in front of the code at pos. */
    method InsertOp32(pos: nat, op: byte, val: int)
      requires pos <= |byteCode|
      modifies this
      ensures byteCode == old(byteCode[..pos]) + ([op] + PutU32(val)) + old(byteCode[pos..])
    {
      hide Splice, PutU32;
      Insert(pos, 5);
      ghost var gapped := byteCode;
      StoreOp32(pos, op, val);
      SpliceGap(old(byteCode), gapped, pos, [op] + PutU32(val));
    }

    // Quantifiers. The atom's code a starts at start and ends the buffer.

    method SimpleQuantifier(start: nat, min: nat, max: nat, len: nat, ghost a: seq<Instr>)
      requires start <= |byteCode| && byteCode[start..] == Bytes(a) && len == CountChars(a)
      modifies this
      ensures byteCode == old(byteCode[..start]) + Bytes(GreedyCode(a, min, max))
    {
      hide Splice, PutU32, Bytes, CountChars, Length;
      EmitOp(OP_MATCH);
      ghost var before := byteCode;
      Insert(start, 17);
      ghost var gapped := byteCode;
      var next := |byteCode| - start - 17;
      StoreOp32(start, OP_SIMPLE_GREEDY_QUANT, next);
      Store32(start + 5, min);
      Store32(start + 9, max);
      Store32(start + 13, len);
      ghost var o := [OP_SIMPLE_GREEDY_QUANT] + PutU32(next);
      SpliceMore(gapped, start, o, PutU32(min));
      SpliceMore(gapped, start, o + PutU32(min), PutU32(max));
      SpliceMore(gapped, start, o + PutU32(min) + PutU32(max), PutU32(len));
      SpliceGap(before, gapped, start, o + PutU32(min) + PutU32(max) + PutU32(len));
      GreedyBytes(old(byteCode), start, before, a, min, max, next);
    }

    /** A branch in front of the body, and a position check around it. */
    method BranchInFront(start: nat, greedy: bool, check: bool, off: int, ghost a: seq<Instr>)
      requires start <= |byteCode| && byteCode[start..] == Bytes(a)
      modifies this
      ensures byteCode == old(byteCode[..start]) + (Encode(Branch(greedy, off)) + Bytes(Guarded(a, check)))
    {
      hide Splice, PutU32, Bytes, Length, Encode, Guarded, Branch;
      ghost var code, p := byteCode, byteCode[..start];
      Insert(start, 5 + (if check then 1 else 0));
      ghost var gapped := byteCode;
      ghost var o := [SplitOp(greedy)] + PutU32(off);
      StoreOp32(start, SplitOp(greedy), off);
      if check {
        StoreByte(start + 5, OP_PUSH_CHAR_POS);
        SpliceMore(gapped, start, o, [OP_PUSH_CHAR_POS]);
        SpliceGap(code, gapped, start, o + [OP_PUSH_CHAR_POS]);
        EmitOp(OP_CHECK_ADVANCE);
      } else {
        SpliceGap(code, gapped, start, o);
      }
      OptionalBytes(p, a, check, greedy, off, byteCode);
    }

    /** At most one round, or any number: a branch in front, and for a loop a jump back behind. */
    method OptionalQuantifier(start: nat, hasGoto: bool, greedy: bool, check: bool, ghost a: seq<Instr>)
      requires start <= |byteCode| && byteCode[start..] == Bytes(a)
      modifies this
      ensures
        var g := Guarded(a, check);
        byteCode == old(byteCode[..start]) + Bytes(if hasGoto then StarCode(g, greedy) else OptCode(g, greedy))
    {
      hide Splice, PutU32, Bytes, Length, Encode, Guarded, Branch, StarCode, OptCode;
      ghost var p, g := byteCode[..start], Guarded(a, check);
      var len := |byteCode| - start;
      var off := len + (if hasGoto then 5 else 0) + (if check then 2 else 0);
      GuardedLength(a, check);
      BranchInFront(start, greedy, check, off, a);
      if hasGoto {
        EmitGoto(OP_GOTO, start);
        StarBytes(p, g, greedy);
      } else {
        OptBytes(g, greedy);
      }
    }

    /** Up to max rounds: the counter, the branch, the body, the loop. */
    method CountedQuantifier(start: nat, max: nat, greedy: bool, check: bool, ghost a: seq<Instr>)
      requires start <= |byteCode| && byteCode[start..] == Bytes(a)
      modifies this
      ensures byteCode == old(byteCode[..start]) + Bytes(CountedCode(Guarded(a, check), greedy, max))
    {
      hide Splice, PutU32, Bytes, Length;
      var len := |byteCode| - start;
      var off := len + 5 + (if check then 2 else 0);
      Insert(start, 10 + (if check then 1 else 0));
      ghost var gapped := byteCode;
      ghost var o1, o2 := [OP_PUSH_I32] + PutU32(max), [SplitOp(greedy)] + PutU32(off);
      StoreOp32(start, OP_PUSH_I32, max);
      StoreOp32(start + 5, SplitOp(greedy), off);
      SpliceMore(gapped, start, o1, o2);
      if check {
        StoreByte(start + 10, OP_PUSH_CHAR_POS);
        SpliceMore(gapped, start, o1 + o2, [OP_PUSH_CHAR_POS]);
        SpliceGap(old(byteCode), gapped, start, o1 + o2 + [OP_PUSH_CHAR_POS]);
        EmitOp(OP_CHECK_ADVANCE);
      } else {
        SpliceGap(old(byteCode), gapped, start, o1 + o2);
      }
      CountedHead(old(byteCode[..start]), a, check, greedy, max, off, byteCode);
      EmitGoto(OP_LOOP, start + 5);
      EmitOp(OP_DROP);
      CountedTail(old(byteCode[..start]), Guarded(a, check), greedy, max);
    }

    /** The rounds a repetition with a minimum must make. Returns where the atom now stands. */
    method MandatoryQuantifier(start: nat, min: nat, ghost a: seq<Instr>) returns (atom: nat)
      requires start <= |byteCode| && byteCode[start..] == Bytes(a) && min > 0
      modifies this
      ensures byteCode == old(byteCode[..start]) + Bytes(MandatoryCode(a, min))
      ensures atom + Length(a) <= |byteCode| && byteCode[atom..atom + Length(a)] == Bytes(a)
    {
      hide PutU32, Bytes, Length;
      LengthIs(a);
      atom := start;
      if min != 1 {
        InsertOp32(start, OP_PUSH_I32, min);
        atom := start + 5;
        EmitGoto(OP_LOOP, atom);
        EmitOp(OP_DROP);
        MandatoryBytes(old(byteCode[..start]), a, min);
        AtomStands(byteCode, old(byteCode[..start]) + ([OP_PUSH_I32] + PutU32(min)), Bytes(a));
      } else {
        assert byteCode == old(byteCode[..start]) + Bytes(a);
        AtomStands(byteCode, old(byteCode[..start]), Bytes(a));
      }
    }

    /** The optional rounds after the mandatory ones: the atom is copied. */
    method CopyQuantifier(atom: nat, len: nat, min: nat, max: nat, greedy: bool, check: bool, ghost a: seq<Instr>)
      requires len == Length(a) && atom + Length(a) <= |byteCode| && byteCode[atom..atom + Length(a)] == Bytes(a)
               && 0 < min <= max
      modifies this
      ensures byteCode == old(byteCode) + Bytes(OptionalCode(Guarded(a, check), greedy, min, max))
    {
      hide PutU32, Bytes, Length;
      LengthIs(a);
      BytesNone();
      if max == INF {
        var pos := |byteCode|;
        CopyLoop(atom, len, greedy, check, a);
        EmitGoto(OP_GOTO, pos);
        StarBytes(old(byteCode), Guarded(a, check), greedy);
      } else if max > min {
        CopyCounted(atom, len, max - min, greedy, check, a);
      }
    }

    method CopyCounted(atom: nat, len: nat, max: nat, greedy: bool, check: bool, ghost a: seq<Instr>)
      requires len == Length(a) && atom + len <= |byteCode| && byteCode[atom..atom + len] == Bytes(a)
      modifies this
      ensures byteCode == old(byteCode) + Bytes(CountedCode(Guarded(a, check), greedy, max))
    {
      hide PutU32, Bytes, Length, Encode, CountedCode, Guarded;
      var _ := EmitOpU32(OP_PUSH_I32, max);
      var pos := |byteCode|;
      assert byteCode[atom..atom + len] == old(byteCode[atom..atom + len]);
      CopyLoop(atom, len, greedy, check, a);
      EmitGoto(OP_LOOP, pos);
      EmitOp(OP_DROP);
      CountedCopy(old(byteCode), Guarded(a, check), greedy, max);
    }

    /** Branch and guarded copy of the atom. */
    method CopyLoop(atom: nat, len: nat, greedy: bool, check: bool, ghost a: seq<Instr>)
      requires len == Length(a) && atom + len <= |byteCode| && byteCode[atom..atom + len] == Bytes(a)
      modifies this
      ensures byteCode == old(byteCode) + (Encode(Branch(greedy, Length(Guarded(a, check)) + 5)) + Bytes(Guarded(a,
                check)))
    {
      hide PutU32, Bytes, Length, Encode;
      var _ := EmitOpU32(SplitOp(greedy), len + 5 + (if check then 2 else 0));
      if check {
        EmitOp(OP_PUSH_CHAR_POS);
      }
      assert byteCode[atom..atom + len] == old(byteCode[atom..atom + len]);
      PutSelf(atom, len);
      if check {
        EmitOp(OP_CHECK_ADVANCE);
      }
      GuardBytes(a, check);
      EncodeBranch(greedy, len + 5 + (if check then 2 else 0));
    }

    method Quantify(start: nat, min: nat, max: nat, greedy: bool, ghost a: seq<Instr>)
      requires start <= |byteCode| && byteCode[start..] == Bytes(a) && RangesFit(a) && min <= max
      modifies this
      ensures byteCode == old(byteCode[..start]) + Bytes(QuantCode(a, min, max, greedy))
    {
      hide PutU32, Bytes, Length, RangesFit, NeedCheck, SimpleCount, CountChars, GreedyCode, StarCode, CountedCode,
          Guarded;
      var check := false;
      if greedy {
        if max > 0 {
          var count := IsSimpleQuantifier(byteCode, start, a);
          if count > 0 {
            CountPositive(a);
            SimpleQuantifier(start, min, max, count, a);
            return;
          }
        }
        check := NeedCheckAdvance(byteCode, start, a);
      }
      QuantShape(a, min, max, greedy, check);
      hide QuantCode, OptCode, PlusCode, MandatoryCode, OptionalCode;
      if min == 0 {
        if max == 0 {
          byteCode := byteCode[..start];
          BytesNone();
        } else if max == 1 || max == INF {
          OptionalQuantifier(start, max == INF, greedy, check, a);
        } else {
          CountedQuantifier(start, max, greedy, check, a);
        }
      } else if min == 1 && max == INF && !check {
        EmitGoto(SplitOp(!greedy), start);
        PlusBytes(old(byteCode[..start]), a, greedy);
        assert old(byteCode) == old(byteCode[..start]) + Bytes(a);
      } else {
        RepeatQuantifier(start, min, max, greedy, check, a);
      }
    }

    method RepeatQuantifier(start: nat, min: nat, max: nat, greedy: bool, check: bool, ghost a: seq<Instr>)
      requires start <= |byteCode| && byteCode[start..] == Bytes(a) && 0 < min <= max
      modifies this
      ensures byteCode == old(byteCode[..start]) + Bytes(MandatoryCode(a, min) + OptionalCode(Guarded(a, check),
                greedy, min, max))
    {
      hide Bytes, Length, MandatoryCode, OptionalCode, Guarded;
      var len := |byteCode| - start;
      LengthIs(a);
      var atom := MandatoryQuantifier(start, min, a);
      CopyQuantifier(atom, len, min, max, greedy, check, a);
      BytesConcat(MandatoryCode(a, min), OptionalCode(Guarded(a, check), greedy, min, max));
    }

    /** re_emit_range. */
    method EmitRange(points: seq<nat>) returns (ok: bool)
      requires ClassOk(points)
      modifies this
      ensures ok <==> |points| / 2 < 65535
      ensures ok ==> byteCode == old(byteCode) + Encode(EmitClass(points))
    {
      hide PutU16, PutU32, PutPairs;
      var len := |points| / 2;
      if len >= 65535 {
        return false;
      }
      ok := true;
      if len == 0 {
        var _ := EmitOpU32(OP_CHAR32, 0xffff_ffff);
      } else {
        var high := points[|points| - 1];
        if high == 0xffff_ffff {
          high := points[|points| - 2];
        }
        if high <= 0xffff {
          EmitOpU16(OP_RANGE, len);
          EmitPairs16(points);
        } else {
          EmitOpU16(OP_RANGE32, len);
          EmitPairs32(points);
        }
      }
    }

    method EmitPairs16(points: seq<nat>)
      requires ClassOk(points) && |points| > 0 && Fits16(points)
      modifies this
      ensures byteCode == old(byteCode) + PutPairs(EmitClass(points).pairs, false)
    {
      hide PutU16, PutPairs;
      ghost var pairs := EmitClass(points).pairs;
      PairsAll(pairs, false);
      var i := 0;
      while i < |points|
        invariant i <= |points| && i % 2 == 0
        invariant byteCode == old(byteCode) + PutPairs(pairs[..i / 2], false)
      {
        PairsNext(pairs, i / 2, false);
        byteCode := byteCode + PutU16(points[i]);
        var high := points[i + 1] as int - 1;
        if high == 0xffff_fffe {
          high := 0xffff;
        }
        byteCode := byteCode + PutU16(high);
        assert pairs[i / 2] == Pair16(points, i / 2) == (points[i] as int, high);
        i := i + 2;
      }
    }

    method EmitPairs32(points: seq<nat>)
      requires ClassOk(points) && |points| > 0 && !Fits16(points)
      modifies this
      ensures byteCode == old(byteCode) + PutPairs(EmitClass(points).pairs, true)
    {
      hide PutU32, PutPairs;
      ghost var pairs := EmitClass(points).pairs;
      PairsAll(pairs, true);
      var i := 0;
      while i < |points|
        invariant i <= |points| && i % 2 == 0
        invariant byteCode == old(byteCode) + PutPairs(pairs[..i / 2], true)
      {
        PairsNext(pairs, i / 2, true);
        byteCode := byteCode + PutU32(points[i]);
        byteCode := byteCode + PutU32(points[i + 1] as int - 1);
        assert pairs[i / 2] == Pair32(points, i / 2) == (points[i] as int, points[i + 1] as int - 1);
        i := i + 2;
      }
    }

    /** re_parse_disjunction and what it calls: the code of the pattern is appended, whatever instructions
        were moved, patched and copied on the way. It fails only for a class with too many intervals. */
    method Parse(r: Regex) returns (ok: bool)
      requires Parsed(r)
      modifies this
      ensures ok <==> WellFormed(r)
      ensures ok ==> byteCode == old(byteCode) + Bytes(Emit(r))
      decreases r
    {
      hide PutU16, PutU32, Bytes, Length, QuantCode, EmitClass;
      ok := true;
      match r {
        case Empty => BytesNone();
        case Char(c) =>
          if c <= 0xffff {
            EmitOpU16(OP_CHAR, c);
          } else {
            var _ := EmitOpU32(OP_CHAR32, c);
          }
          BytesOne(Emit(r)[0]);
        case Dot =>
          EmitOp(OP_DOT);
          BytesOne(IDot);
        case Any =>
          EmitOp(OP_ANY);
          BytesOne(IAny);
        case LineStart =>
          EmitOp(OP_LINE_START);
          BytesOne(ILineStart);
        case LineEnd =>
          EmitOp(OP_LINE_END);
          BytesOne(ILineEnd);
        case WordBoundary(negated) =>
          EmitOp(if negated then OP_NOT_WORD_BOUNDARY else OP_WORD_BOUNDARY);
          BytesOne(IWord(negated));
        case Class(points) =>
          ok := EmitRange(points);
          BytesOne(EmitClass(points));
        case _ =>
          ok := ParseCompound(r);
      }
    }

    method ParseCompound(r: Regex) returns (ok: bool)
      requires Parsed(r) && (r.Seq? || r.Alt? || r.Look? || r.Quant?)
      modifies this
      ensures ok <==> WellFormed(r)
      ensures ok ==> byteCode == old(byteCode) + Bytes(Emit(r))
      decreases r, 1
    {
      hide PutU16, PutU32, Bytes, Length, QuantCode, EmitClass, AltCode, LookCode;
      match r {
        case Seq(a, b) =>
          ok := Parse(a);
          if ok {
            ok := Parse(b);
            if ok {
              BytesConcat(Emit(a), Emit(b));
            }
          }
        case Alt(_, _) => ok := ParseAlt(r);
        case Look(negated, a) =>
          var pos := EmitOpU32(if negated then OP_LOOKAHEAD + 1 else OP_LOOKAHEAD, 0);
          ghost var before := byteCode;
          ok := Parse(a);
          if ok {
            EmitOp(OP_MATCH);
            ghost var patched := byteCode;
            Store32(pos, |byteCode| - (pos + 4));
            LookBytes(old(byteCode), before, patched, negated, Emit(a));
          }
        case Quant(a, min, max, greedy) =>
          var start := |byteCode|;
          ok := Parse(a);
          if ok {
            EmitFits(a);
            Quantify(start, min, max, greedy, Emit(a));
          }
      }
    }

    /** re_parse_disjunction: the first alternative moves up to make room for the split, the jump behind
        it is patched once the second is compiled. */
    method ParseAlt(r: Regex) returns (ok: bool)
      requires Parsed(r) && r.Alt?
      modifies this
      ensures ok <==> WellFormed(r)
      ensures ok ==> byteCode == old(byteCode) + Bytes(Emit(r))
      decreases r, 0
    {
      hide PutU16, PutU32, Bytes, Length, QuantCode, EmitClass, AltCode, Splice;
      var a, b := r.left, r.right;
      var start := |byteCode|;
      ok := Parse(a);
      if !ok {
        return;
      }
      var len := |byteCode| - start;
      InsertOp32(start, OP_SPLIT_NEXT_FIRST, len + 5);
      var pos := EmitOpU32(OP_GOTO, 0);
      ghost var mid := byteCode;
      ok := Parse(b);
      if ok {
        ghost var patched := byteCode;
        len := |byteCode| - (pos + 4);
        Store32(pos, len);
        AltBytes(old(byteCode), mid, patched, Emit(a), Emit(b));
      }
    }
  }

  lemma CountPositive(a: seq<Instr>)
    requires SimpleCount(a) > 0
    ensures SimpleCount(a) == CountChars(a)
  {}

  /** The form of the code once the fast path is ruled out. */
  lemma QuantShape(a: seq<Instr>, min: nat, max: nat, greedy: bool, check: bool)
    requires min <= max && !(greedy && max > 0 && SimpleCount(a) > 0) && check == (greedy && NeedCheck(a))
    ensures
      var g := Guarded(a, check);
      QuantCode(a, min, max, greedy) ==
      if min == 0 then
        if max == 0 then [] else if max == 1 then OptCode(g, greedy)
        else if max == INF then StarCode(g, greedy) else CountedCode(g, greedy, max)
      else if min == 1 && max == INF && !check then PlusCode(a, greedy)
      else MandatoryCode(a, min) + OptionalCode(g, greedy, min, max)
  {
    hide SimpleCount, NeedCheck, Guarded, OptCode, StarCode, CountedCode, PlusCode, MandatoryCode;
  }

  lemma PlusBytes(p: seq<byte>, a: seq<Instr>, greedy: bool)
    ensures
      var head := p + Bytes(a);
      head + ([SplitOp(!greedy)] + PutU32(|p| - (|head| + 5))) == p + Bytes(PlusCode(a, greedy))
  {
    hide Bytes, Length, PutU32, Encode;
    LengthIs(a);
    var off := -(Length(a) + 5);
    BytesThen(a, Branch(!greedy, off));
    EncodeBranch(!greedy, off);
    Reassociate(p, Bytes(a), Encode(Branch(!greedy, off)));
  }

  lemma Reassociate<T>(a: seq<T>, b: seq<T>, c: seq<T>)
    ensures a + b + c == a + (b + c)
  {}

  lemma SplicePatch(p: seq<byte>, o: seq<byte>, x: seq<byte>, y: seq<byte>)
    requires |o| == |x|
    ensures Splice(p + o + y, |p|, x) == p + x + y
  {}

  /** The operand of the lookahead, written when its body is known. */
  lemma LookBytes(buf: seq<byte>, before: seq<byte>, patched: seq<byte>, negated: bool, a: seq<Instr>)
    requires
      var op := if negated then OP_LOOKAHEAD + 1 else OP_LOOKAHEAD;
      before == buf + ([op] + PutU32(0)) && patched == before + Bytes(a) + [OP_MATCH]
    ensures
      var pos := |buf| + 1;
      Splice(patched, pos, PutU32(|patched| - (pos + 4))) == buf + Bytes(LookCode(negated, a))
  {
    hide Bytes, Length, Splice, PutU32;
    var op := if negated then OP_LOOKAHEAD + 1 else OP_LOOKAHEAD;
    LengthIs(a);
    BytesAround(ILook(negated, Length(a) + 1), a, IMatch);
    assert patched == (buf + [op]) + PutU32(0) + (Bytes(a) + [OP_MATCH]);
    SplicePatch(buf + [op], PutU32(0), PutU32(Length(a) + 1), Bytes(a) + [OP_MATCH]);
  }

  lemma AltBytes(buf: seq<byte>, mid: seq<byte>, patched: seq<byte>, a: seq<Instr>, b: seq<Instr>)
    requires mid == buf + ([OP_SPLIT_NEXT_FIRST] + PutU32(|Bytes(a)| + 5)) + Bytes(a) + ([OP_GOTO] + PutU32(0))
    requires patched == mid + Bytes(b)
    ensures
      var pos := |mid| - 4;
      Splice(patched, pos, PutU32(|patched| - (pos + 4))) == buf + Bytes(AltCode(a, b))
  {
    hide Bytes, Length, Splice, PutU32;
    LengthIs(a);
    LengthIs(b);
    var i, j := ISplitNextFirst(Length(a) + 5), IGoto(Length(b));
    BytesAround(i, a, j);
    BytesConcat([i] + a + [j], b);
    var p := buf + ([OP_SPLIT_NEXT_FIRST] + PutU32(Length(a) + 5)) + Bytes(a) + [OP_GOTO];
    assert patched == p + PutU32(0) + Bytes(b);
    SplicePatch(p, PutU32(0), PutU32(Length(b)), Bytes(b));
  }

  // The byte strings these operations build.

  lemma {:induction false} PairsSnoc(pairs: seq<(int, int)>, p: (int, int), wide: bool)
    ensures PutPairs(pairs + [p], wide)
         == PutPairs(pairs, wide) + (if wide then PutU32(p.0) + PutU32(p.1) else PutU16(p.0) + PutU16(p.1))
  {
    hide PutU16, PutU32;
    if pairs == [] {
      assert pairs + [p] == [p] && [p][1..] == [];
    } else {
      assert (pairs + [p])[1..] == pairs[1..] + [p];
      PairsSnoc(pairs[1..], p, wide);
    }
  }

  lemma PairsNext(pairs: seq<(int, int)>, i: nat, wide: bool)
    requires i < |pairs|
    ensures PutPairs(pairs[..i + 1], wide)
         == PutPairs(pairs[..i], wide)
            + (if wide then PutU32(pairs[i].0) + PutU32(pairs[i].1) else PutU16(pairs[i].0) + PutU16(pairs[i].1))
  {
    assert pairs[..i + 1] == pairs[..i] + [pairs[i]];
    PairsSnoc(pairs[..i], pairs[i], wide);
  }

  lemma PairsAll(pairs: seq<(int, int)>, wide: bool)
    ensures PutPairs(pairs[..0], wide) == [] && PutPairs(pairs[..|pairs|], wide) == PutPairs(pairs, wide)
  {
    assert pairs[..|pairs|] == pairs;
  }

  lemma BytesNone()
    ensures Bytes([]) == [] && Length([]) == 0
  {}

  lemma GuardBytes(a: seq<Instr>, check: bool)
    ensures Bytes(Guarded(a, check)) == if check then [OP_PUSH_CHAR_POS] + Bytes(a) + [OP_CHECK_ADVANCE] else Bytes(a)
    ensures Length(Guarded(a, check)) == Length(a) + if check then 2 else 0
  {
    hide Bytes, Length;
    BytesAround(IPushPos, a, ICheckAdvance);
  }

  lemma GreedyBytes(buf: seq<byte>, start: nat, before: seq<byte>, a: seq<Instr>, min: nat, max: nat, next: nat)
    requires start <= |buf| && buf[start..] == Bytes(a) && before == buf + [OP_MATCH] && next == |before| - start
    ensures
      var o := [OP_SIMPLE_GREEDY_QUANT] + PutU32(next) + PutU32(min) + PutU32(max) + PutU32(CountChars(a));
      before[..start] + o + before[start..] == buf[..start] + Bytes(GreedyCode(a, min, max))
  {
    hide Bytes, Length, PutU32, CountChars;
    LengthIs(a);
    BytesAround(IGreedy(next, min, max, CountChars(a)), a, IMatch);
  }

  /** A branch over a guarded body, before the jump back. */
  lemma OptionalBytes(p: seq<byte>, a: seq<Instr>, check: bool, greedy: bool, off: int, buf: seq<byte>)
    requires
      var o := [SplitOp(greedy)] + PutU32(off);
      buf == if check then p + (o + [OP_PUSH_CHAR_POS]) + Bytes(a) + [OP_CHECK_ADVANCE] else p + o + Bytes(a)
    ensures buf == p + (Encode(Branch(greedy, off)) + Bytes(Guarded(a, check)))
  {
    hide Bytes, Length, PutU32;
    GuardBytes(a, check);
    EncodeBranch(greedy, off);
  }

  lemma GuardedLength(a: seq<Instr>, check: bool)
    ensures Length(Guarded(a, check)) == |Bytes(a)| + if check then 2 else 0
  {
    hide Bytes, Length;
    LengthIs(a);
    GuardBytes(a, check);
  }

  lemma OptBytes(g: seq<Instr>, greedy: bool)
    ensures Bytes(OptCode(g, greedy)) == Encode(Branch(greedy, Length(g))) + Bytes(g)
  {
    hide Bytes, Length, Encode;
    BytesBefore(Branch(greedy, Length(g)), g);
  }

  lemma StarBytes(p: seq<byte>, g: seq<Instr>, greedy: bool)
    ensures
      var head := p + (Encode(Branch(greedy, Length(g) + 5)) + Bytes(g));
      head + ([OP_GOTO] + PutU32(|p| - (|head| + 5))) == p + Bytes(StarCode(g, greedy))
  {
    var e, b, back := Encode(Branch(greedy, Length(g) + 5)), Bytes(g), -(Length(g) + 10);
    LengthIs(g);
    EncodeBranch(greedy, Length(g) + 5);
    EncodeGoto(back);
    hide Bytes, Length, PutU32, Encode;
    BytesAround(Branch(greedy, Length(g) + 5), g, IGoto(back));
    Reassociate(p, e + b, [OP_GOTO] + PutU32(back));
  }

  lemma EncodeGoto(off: int)
    ensures Encode(IGoto(off)) == [OP_GOTO] + PutU32(off)
  {}

  lemma CountedHead(p: seq<byte>, a: seq<Instr>, check: bool, greedy: bool, max: nat, off: int, buf: seq<byte>)
    requires
      var o := ([OP_PUSH_I32] + PutU32(max)) + ([SplitOp(greedy)] + PutU32(off));
      buf == if check then p + (o + [OP_PUSH_CHAR_POS]) + Bytes(a) + [OP_CHECK_ADVANCE] else p + o + Bytes(a)
    ensures buf == p + ([OP_PUSH_I32] + PutU32(max)) + (Encode(Branch(greedy, off)) + Bytes(Guarded(a, check)))
    ensures Length(Guarded(a, check)) == Length(a) + if check then 2 else 0
  {
    hide Bytes, Length, PutU32;
    GuardBytes(a, check);
    EncodeBranch(greedy, off);
  }

  lemma LoopBytes(g: seq<Instr>, greedy: bool)
    ensures Bytes(CountLoop(g, greedy))
         == Encode(Branch(greedy, Length(g) + 5)) + Bytes(g) + ([OP_LOOP] + PutU32(-(Length(g) + 10))) + [OP_DROP]
  {
    hide Bytes, Length, PutU32;
    BytesAround(Branch(greedy, Length(g) + 5), g, ILoop(-(Length(g) + 10)));
    BytesThen([Branch(greedy, Length(g) + 5)] + g + [ILoop(-(Length(g) + 10))], IDrop);
  }

  lemma CountedTail(p: seq<byte>, g: seq<Instr>, greedy: bool, max: nat)
    ensures
      var head := p + ([OP_PUSH_I32] + PutU32(max)) + (Encode(Branch(greedy, Length(g) + 5)) + Bytes(g));
      head + ([OP_LOOP] + PutU32(|p| + 5 - (|head| + 5))) + [OP_DROP] == p + Bytes(CountedCode(g, greedy, max))
  {
    hide Bytes, Length, PutU32;
    LengthIs(g);
    LoopBytes(g, greedy);
    BytesBefore(IPush(max), CountLoop(g, greedy));
  }

  lemma CountedCopy(p: seq<byte>, g: seq<Instr>, greedy: bool, max: nat)
    ensures
      var o := [OP_PUSH_I32] + PutU32(max);
      var head := p + o + (Encode(Branch(greedy, Length(g) + 5)) + Bytes(g));
      head + ([OP_LOOP] + PutU32(|p + o| - (|head| + 5))) + [OP_DROP] == p + Bytes(CountedCode(g, greedy, max))
  {
    hide Bytes, Length, PutU32;
    CountedTail(p, g, greedy, max);
  }

  lemma MandatoryBytes(p: seq<byte>, a: seq<Instr>, min: nat)
    requires min != 1
    ensures
      var head := p + ([OP_PUSH_I32] + PutU32(min)) + Bytes(a);
      head + ([OP_LOOP] + PutU32(|p| + 5 - (|head| + 5))) + [OP_DROP] == p + Bytes(MandatoryCode(a, min))
  {
    hide Bytes, Length, PutU32;
    LengthIs(a);
    BytesThen(a, ILoop(-(Length(a) + 5)));
    BytesThen(a + [ILoop(-(Length(a) + 5))], IDrop);
    BytesBefore(IPush(min), MandatoryLoop(a));
  }

  lemma AtomStands(buf: seq<byte>, p: seq<byte>, a: seq<byte>)
    requires |p| + |a| <= |buf| && buf[..|p| + |a|] == p + a
    ensures buf[|p|..|p| + |a|] == a
  {
    assert buf[|p|..|p| + |a|] == buf[..|p| + |a|][|p|..];
  }
}
