/** The interpreter loop (libregexp.c lre_exec_backtrack, push_state, lre_exec): the counter stack and the
    captures are buffers overwritten in place, the saved states a stack that grows at its end. */
module RegexExec {
  import opened Byte
  import opened RegexSyntax
  import opened RegexCode
  import opened RegexEmit
  import opened RegexVm
  import opened RegexStack
  import opened RegexDepth
  import opened RegexProgram
  import opened RegexCompiler
  import opened RegexCompile
  import opened RegexRange

  /** All captures of a configuration have n slots. */
  ghost predicate CapsOk(c: Config, n: nat) {
    match c
    case Run(_, _, _, cap, frames) => |cap| == n && FrameCapsOk(frames, n)
    case Repeating(_, _, _, _, cap, frames) => |cap| == n && FrameCapsOk(frames, n)
    case Fail(frames) => FrameCapsOk(frames, n)
    case Success(cap, frames) => |cap| == n && FrameCapsOk(frames, n)
    case Matched(cap) => |cap| == n
    case _ => true
  }

  ghost predicate FrameCapsOk(frames: seq<Frame>, n: nat) {
    forall i :: 0 <= i < |frames| ==> |frames[i].cap| == n
  }

  lemma CapsStep(m: Machine, c: Config, n: nat)
    requires CapsOk(c, n)
    ensures CapsOk(Step(m, c), n)
  {
    hide Decode, Accepts, Holds, RunSimple, GetOff, GetU32;
  }

  lemma {:induction false} CapsSteps(m: Machine, c: Config, n: nat, k: nat)
    requires CapsOk(c, n)
    ensures CapsOk(Steps(m, k, c), n)
    decreases k
  {
    hide CapsOk, Step;
    if k > 0 {
      CapsStep(m, c, n);
      CapsSteps(m, Step(m, c), n, k - 1);
    }
  }

  /** pc is the address of an instruction of the program behind the header. */
  ghost predicate OnProgram(prog: seq<Instr>, pc: int) {
    exists j :: 0 <= j < |prog| && pc == HEADER_LEN + Length(prog[..j])
  }

  /** What holds of every configuration on the way. */
  ghost predicate GoodAt(prog: seq<Instr>, size: nat, d: Config) {
    && !d.Stuck? && CapsOk(d, 2)
    && (d.Run? ==> |d.stack| <= size && OnProgram(prog, d.pc))
  }

  ghost predicate Good(m: Machine, prog: seq<Instr>, size: nat, c: Config) {
    forall k: nat :: GoodAt(prog, size, Steps(m, k, c))
  }

  lemma GoodNow(m: Machine, prog: seq<Instr>, size: nat, c: Config)
    requires Good(m, prog, size, c)
    ensures GoodAt(prog, size, c)
  {
    assert Steps(m, 0, c) == c;
  }

  lemma GoodLater(m: Machine, prog: seq<Instr>, size: nat, c: Config, j: nat)
    requires Good(m, prog, size, c)
    ensures Good(m, prog, size, Steps(m, j, c))
  {
    hide GoodAt;
    forall k: nat
      ensures GoodAt(prog, size, Steps(m, k, Steps(m, j, c)))
    {
      StepsAdd(m, j, k, c);
      assert GoodAt(prog, size, Steps(m, j + k, c));
    }
  }

  lemma StepsOne(m: Machine, c: Config)
    ensures Steps(m, 1, c) == Step(m, c)
  {
    assert Steps(m, 0, Step(m, c)) == Step(m, c);
  }

  /** Every run that reaches a result, from the start of a compiled program, is good throughout. */
  lemma StartGood(code: seq<byte>, r: Regex, flags: byte, s: Subject, p: nat, n: nat)
    requires WellFormed(r) && Compiled(code, r, flags) && |code| < 0x8000_0000
    requires Halted(Steps(Machine(code, s), n, Run(HEADER_LEN, p, [], NO_CAPTURE, [])))
    ensures Good(Machine(code, s), Program(r, HasFlag(flags, FLAG_STICKY)), code[2],
                 Run(HEADER_LEN, p, [], NO_CAPTURE, []))
  {
    hide Steps, Step, CapsOk, Program, Highest, At, Decode;
    var m, sticky := Machine(code, s), HasFlag(flags, FLAG_STICKY);
    var prog := Program(r, sticky);
    var start := Run(HEADER_LEN, p, [], NO_CAPTURE, []);
    CompiledAt(code, r, flags);
    StartCaps(p);
    forall k: nat
      ensures GoodAt(prog, code[2], Steps(m, k, start))
    {
      CapsSteps(m, start, 2, k);
      StackExact(m, HEADER_LEN, r, sticky, p, k);
      NeverStuck(m, start, k, n);
      if Steps(m, k, start).Run? {
        OnProgramAt(m, r, sticky, Steps(m, k, start));
      }
    }
  }

  lemma StartCaps(p: nat)
    ensures CapsOk(Run(HEADER_LEN, p, [], NO_CAPTURE, []), 2)
  {}

  lemma OnProgramAt(m: Machine, r: Regex, sticky: bool, c: Config)
    requires WellFormed(r) && c.Run? && ScannedDepth(r, sticky, c.pc - HEADER_LEN, |c.stack|)
    ensures OnProgram(Program(r, sticky), c.pc)
  {
    hide Boundary, Program, Body, Length;
    var body := Body(r, sticky);
    BodySafe(r, sticky);
    var j := BoundaryIndex(body, c.pc - HEADER_LEN, |c.stack|);
    assert Program(r, sticky)[..j] == body[..j];
  }

  /** A run that ends with a result was never stuck. */
  lemma NeverStuck(m: Machine, c: Config, k: nat, n: nat)
    requires Halted(Steps(m, n, c))
    ensures !Steps(m, k, c).Stuck?
  {
    hide Step;
    if k <= n {
      StepsAdd(m, k, n - k, c);
      if Steps(m, k, c).Stuck? {
        StuckStays(m, n - k);
      }
    } else {
      StepsAdd(m, n, k - n, c);
      HaltedStays(m, k - n, Steps(m, n, c));
    }
  }

  lemma {:induction false} StuckStays(m: Machine, n: nat)
    ensures Steps(m, n, Stuck) == Stuck
  {
    if n > 0 {
      StuckStays(m, n - 1);
    }
  }

  /** The saved states with the newest first. */
  function TopFirst(s: seq<Frame>): (t: seq<Frame>)
    ensures |t| == |s|
  {
    seq(|s|, i requires 0 <= i < |s| => s[|s| - 1 - i])
  }

  lemma TopPush(s: seq<Frame>, f: Frame)
    ensures TopFirst(s + [f]) == [f] + TopFirst(s)
  {}

  lemma TopPop(s: seq<Frame>)
    requires s != []
    ensures TopFirst(s) == [s[|s| - 1]] + TopFirst(s[..|s| - 1])
  {}

  lemma TopUpdate(s: seq<Frame>, f: Frame)
    requires s != []
    ensures TopFirst(s[|s| - 1 := f]) == [f] + TopFirst(s[..|s| - 1])
  {}

  /** is_line_terminator */
  method TestLineTerminator(c: nat) returns (r: bool)
    ensures r == IsLineTerminator(c)
  {
    r := c == '\n' as int || c == '\r' as int || c == 0x2028 || c == 0x2029;
  }

  /** is_word_char */
  method TestWordChar(c: nat) returns (r: bool)
    ensures r == IsWordChar(c)
  {
    r := || ('0' as int <= c <= '9' as int)
         || ('a' as int <= c <= 'z' as int)
         || ('A' as int <= c <= 'Z' as int)
         || c == '_' as int;
  }

  datatype Status = Continue | NoMatchHere | MatchHere

  class ExecContext {
    const bcBuf: seq<byte>
    const subject: Subject
    const capture: array<Option<nat>>
    const stack: array<int>
    var stackLen: nat
    var stateStack: seq<Frame>

    ghost predicate Valid()
      reads this
    {
      capture.Length == 2 && stackLen <= stack.Length
    }

    /** The machine configuration the fields stand for. */
    ghost function State(pc: nat, cptr: nat): (c: Config)
      requires Valid()
      reads this, capture, stack
      ensures c.Run?
    {
      Run(pc, cptr, stack[..stackLen], capture[..], TopFirst(stateStack))
    }

    ghost function Engine(): Machine {
      Machine(bcBuf, subject)
    }

    constructor (code: seq<byte>, s: Subject, size: nat)
      ensures Valid() && bcBuf == code && subject == s && stack.Length == size
      ensures fresh(capture) && fresh(stack)
      ensures capture[..] == NO_CAPTURE && stackLen == 0 && stateStack == []
    {
      bcBuf := code;
      subject := s;
      capture := new Option<nat>[2](i => None);
      stack := new int[size];
      stackLen := 0;
      stateStack := [];
    }

    method PushState(pc: nat, cptr: nat, kind: Kind, count: nat)
      requires Valid()
      modifies this
      ensures Valid() && stackLen == old(stackLen)
      ensures TopFirst(stateStack)
              == [Frame(kind, count, cptr, pc, capture[..], stack[..stackLen])] + old(TopFirst(stateStack))
    {
      var f := Frame(kind, count, cptr, pc, capture[..], stack[..stackLen]);
      TopPush(stateStack, f);
      stateStack := stateStack + [f];
    }

    method Push(v: int)
      requires Valid() && stackLen < stack.Length
      modifies this`stackLen, stack
      ensures Valid() && stack[..stackLen] == old(stack[..stackLen]) + [v]
    {
      stack[stackLen] := v;
      stackLen := stackLen + 1;
    }

    method RestoreStack(f: Frame)
      requires Valid() && |f.stack| <= stack.Length
      modifies this`stackLen, stack
      ensures Valid() && stack[..stackLen] == f.stack
    {
      stackLen := |f.stack|;
      forall i | 0 <= i < |f.stack| {
        stack[i] := f.stack[i];
      }
    }

    method RestoreCapture(f: Frame)
      requires Valid() && |f.cap| == 2
      modifies capture
      ensures capture[..] == f.cap
    {
      forall i | 0 <= i < 2 {
        capture[i] := f.cap[i];
      }
    }

    /** Is the character at cptr accepted by the instruction at pc? */
    method TestChar(pc: nat, i: Instr, c: nat) returns (hit: bool)
      requires Decode(bcBuf, pc) == Some(i) && IsCharOp(i) && RangeSorted(i)
      ensures hit == Accepts(i, c)
    {
      hide GetPairs, GetU16, GetU32, GetOff, RangeHit, PairsSorted;
      match i {
        case IRange(pairs) => hit := RangeTest(bcBuf, pc + 3, GetU16(bcBuf, pc + 1), false, c);
        case IRange32(pairs) => hit := RangeTest(bcBuf, pc + 3, GetU16(bcBuf, pc + 1), true, c);
        case IChar(d) => hit := c == d;
        case IChar32(d) => hit := c == d;
        case IDot =>
          var terminator := TestLineTerminator(c);
          hit := !terminator;
        case IAny => hit := true;
      }
    }

    /** The position tests: line start and end, word boundary. */
    method TestPosition(i: Instr, cptr: nat) returns (holds: bool)
      requires IsAssertion(i) && cptr <= |subject.text|
      ensures holds == Holds(i, subject, cptr)
    {
      hide IsLineTerminator, IsWordChar;
      match i {
        case ILineStart =>
          if cptr == 0 {
            return true;
          }
          if !subject.multiline {
            return false;
          }
          holds := TestLineTerminator(subject.text[cptr - 1]);
        case ILineEnd =>
          if cptr == |subject.text| {
            return true;
          }
          if !subject.multiline {
            return false;
          }
          holds := TestLineTerminator(subject.text[cptr]);
        case IWord(negated) =>
          var before, current := false, false;
          if cptr != 0 {
            before := TestWordChar(subject.text[cptr - 1]);
          }
          if cptr < |subject.text| {
            current := TestWordChar(subject.text[cptr]);
          }
          if negated {
            holds := before == current;
          } else {
            holds := before != current;
          }
      }
    }

    /** One instruction other than the greedy one, a match or a failure: the new state is the machine's
        next configuration. */
    method ExecOp(pc: nat, cptr: nat, i: Instr) returns (st: Status, pc': nat, cptr': nat)
      requires Valid() && Decode(bcBuf, pc) == Some(i) && !i.IGreedy? && RangeSorted(i) && cptr <= |subject.text|
      requires !Exec(Engine(), i, State(pc, cptr)).Stuck?
      requires
        var d := Exec(Engine(), i, State(pc, cptr));
        d.Run? ==> |d.stack| <= stack.Length
      modifies this, capture, stack
      ensures Valid()
      ensures
        var d := old(Exec(Engine(), i, State(pc, cptr)));
        match st
        case Continue => d == State(pc', cptr')
        case NoMatchHere => d == Fail(TopFirst(stateStack))
        case MatchHere => d == Success(capture[..], TopFirst(stateStack))
    {
      hide Decode, TopFirst, RangeSorted, Holds, Accepts;
      var next := pc + Size(i);
      st, pc', cptr' := Continue, next, cptr;
      if IsCharOp(i) {
        if cptr >= |subject.text| {
          st := NoMatchHere;
        } else {
          var hit := TestChar(pc, i, subject.text[cptr]);
          if hit {
            cptr' := cptr + 1;
          } else {
            st := NoMatchHere;
          }
        }
      } else if IsAssertion(i) {
        var holds := TestPosition(i, cptr);
        if !holds {
          st := NoMatchHere;
        }
      } else if i.IMatch? {
        st := MatchHere;
      } else if IsJump(i) && !i.ILoop? {
        pc' := ExecJump(pc, cptr, i);
      } else {
        st, pc' := ExecStack(pc, cptr, i);
      }
    }

    method ExecJump(pc: nat, cptr: nat, i: Instr) returns (pc': nat)
      requires Valid() && IsJump(i) && !i.ILoop? && cptr <= |subject.text|
      modifies this
      ensures Valid()
      ensures old(Exec(Engine(), i, State(pc, cptr))) == State(pc', cptr)
    {
      hide TopFirst;
      var next := pc + Size(i);
      match i {
        case IGoto(off) => pc' := Jump(next, off);
        case ISplitNextFirst(off) =>
          pc' := next;
          PushState(Jump(next, off), cptr, Split, 0);
        case ISplitGotoFirst(off) =>
          pc' := Jump(next, off);
          PushState(next, cptr, Split, 0);
        case ILook(negated, off) =>
          pc' := next;
          PushState(Jump(next, off), cptr, if negated then LookNegative else LookPositive, 0);
      }
    }

    method ExecStack(pc: nat, cptr: nat, i: Instr) returns (st: Status, pc': nat)
      requires Valid() && cptr <= |subject.text|
      requires !IsCharOp(i) && !IsAssertion(i) && !i.IMatch? && !i.IGreedy? && (!IsJump(i) || i.ILoop?)
      requires !Exec(Engine(), i, State(pc, cptr)).Stuck?
      requires
        var d := Exec(Engine(), i, State(pc, cptr));
        d.Run? ==> |d.stack| <= stack.Length
      modifies this`stackLen, capture, stack
      ensures Valid() && st != MatchHere
      ensures
        var d := old(Exec(Engine(), i, State(pc, cptr)));
        if st.Continue? then d == State(pc', cptr) else d == Fail(TopFirst(stateStack))
    {
      hide TopFirst;
      st, pc' := Continue, pc + Size(i);
      ghost var before := stack[..stackLen];
      match i {
        case ISaveStart(k) => capture[2 * k] := Some(cptr);
        case ISaveEnd(k) => capture[2 * k + 1] := Some(cptr);
        case IPush(v) => Push(v);
        case IDrop =>
          stackLen := stackLen - 1;
          assert stack[..stackLen] == before[..|before| - 1];
        case ILoop(off) =>
          stack[stackLen - 1] := stack[stackLen - 1] - 1;
          assert stack[..stackLen] == before[..|before| - 1] + [before[|before| - 1] - 1];
          if stack[stackLen - 1] != 0 {
            pc' := Jump(pc', off);
          }
        case IPushPos => Push(cptr);
        case ICheckAdvance =>
          if stack[stackLen - 1] == cptr {
            st := NoMatchHere;
          } else {
            stackLen := stackLen - 1;
            assert stack[..stackLen] == before[..|before| - 1];
          }
      }
    }

    /** The recursive call of the greedy instruction: no state is saved, and the first match instruction or
        failure ends it. */
    method RunNoRecurse(pc0: nat, cptr0: nat, ghost prog: seq<Instr>) returns (ok: bool, end: nat)
      requires ProgramAt(bcBuf, prog) && OnProgram(prog, pc0) && cptr0 <= |subject.text|
      requires RunSimple(Engine(), pc0, cptr0) != SimpleStuck
      ensures RunSimple(Engine(), pc0, cptr0) == if ok then SimpleEnd(end) else SimpleFail
    {
      hide ProgramAt, Decode, Holds, Accepts, OnProgram, RangeSorted, RunSimple;
      var pc: nat, cptr: nat := pc0, cptr0;
      ghost var m := Engine();
      while true
        invariant OnProgram(prog, pc) && cptr <= |subject.text|
        invariant RunSimple(m, pc, cptr) == RunSimple(m, pc0, cptr0)
        decreases |bcBuf| - pc
      {
        ghost var j := InstrHere(bcBuf, prog, pc);
        var i := Decode(bcBuf, pc).value;
        RunSimpleUnfold(m, pc, i, cptr);
        NextHere(prog, j, i, pc);
        assert i.IMatch? || j + 1 < |prog| by {
          LastIsMatch(bcBuf, prog);
        }
        DecodeInside(bcBuf, pc);
        if i.IMatch? {
          return true, cptr;
        } else if IsCharOp(i) {
          if cptr >= |subject.text| {
            return false, 0;
          }
          var hit := TestChar(pc, i, subject.text[cptr]);
          if !hit {
            return false, 0;
          }
          cptr := cptr + 1;
        } else {
          var holds := TestPosition(i, cptr);
          if !holds {
            return false, 0;
          }
        }
        pc := pc + Size(i);
      }
    }

    /** The greedy instruction. Ghost n counts the machine's steps. */
    method ExecGreedy(pc0: nat, cptr0: nat, i: Instr, ghost prog: seq<Instr>, ghost left: nat)
      returns (st: Status, pc': nat, cptr: nat, ghost n: nat)
      requires Valid() && ProgramAt(bcBuf, prog) && OnProgram(prog, pc0)
      requires Decode(bcBuf, pc0) == Some(i) && i.IGreedy? && cptr0 <= |subject.text|
      requires Good(Engine(), prog, stack.Length, State(pc0, cptr0)) && Halted(Steps(Engine(), left, State(pc0, cptr0)))
      modifies this
      ensures Valid() && st != MatchHere && n > 0
      ensures
        var d := Steps(Engine(), n, old(State(pc0, cptr0)));
        if st.Continue? then d == State(pc', cptr) else d == Fail(TopFirst(stateStack))
    {
      hide ProgramAt, Decode, OnProgram, RangeSorted, RunSimple, Good, Steps, TopFirst, GetOff, GetU32, Jump;
      ghost var m, c := Engine(), State(pc0, cptr0);
      GreedyStart(m, prog, pc0, i, c);
      cptr := cptr0;
      var q := 0;
      var ok, end := true, 0;
      while ok && !(q > 0 && q >= i.max && i.max != INF)
        invariant Valid() && State(pc0, cptr0) == c && cptr <= |subject.text|
        invariant Steps(m, q + 1, c) == Repeating(pc0 + 1, q, cptr, c.stack, c.cap, c.frames)
        invariant ok || (RunSimple(m, pc0 + 17, cptr) == SimpleFail && !(q > 0 && q >= i.max && i.max != INF))
        decreases left - q, ok
      {
        RepeatGood(m, prog, stack.Length, c, q + 1, left);
        ok, end := RunNoRecurse(pc0 + 17, cptr, prog);
        if ok {
          RoundDone(m, c, pc0, i, q, cptr, end);
          cptr := end;
          q := q + 1;
          RepeatGood(m, prog, stack.Length, c, q + 1, left);
        }
      }
      RepeatGood(m, prog, stack.Length, c, q + 1, left);
      RoundsDone(m, c, pc0, i, q, cptr);
      n := q + 2;
      st := Continue;
      pc' := Jump(pc0 + 17, i.next);
      if q < i.min {
        st := NoMatchHere;
      } else if q > i.min {
        PushState(pc0 + 1, cptr, Greedy, q - i.min);
      }
    }

    /** Unwinds the saved states: after a failure to the newest branch, after a success to the innermost
        lookahead. Ghost n counts the machine's steps. */
    method Recurse(ret0: bool, ghost prog: seq<Instr>)
      returns (resumed: bool, ret: bool, pc: nat, cptr: nat, ghost n: nat)
      requires Valid() && Good(Engine(), prog, stack.Length, Unwinding(ret0, capture[..], TopFirst(stateStack)))
      modifies this, capture, stack
      ensures Valid()
      ensures
        Steps(Engine(), n, old(Unwinding(ret0, capture[..], TopFirst(stateStack))))
        == if resumed then State(pc, cptr) else if ret then Matched(capture[..]) else NoMatch
    {
      hide Good, Steps, TopFirst, GetOff, GetU32, Jump;
      ghost var m, c := Engine(), Unwinding(ret0, capture[..], TopFirst(stateStack));
      resumed, ret, pc, cptr, n := false, ret0, 0, 0, 0;
      StepsNone(m, c);
      while stateStack != []
        invariant Valid() && Steps(m, n, c) == Unwinding(ret, capture[..], TopFirst(stateStack))
        decreases |stateStack|
      {
        UnwindGood(m, prog, stack.Length, c, n);
        StepsSnoc(m, n, c);
        TopPop(stateStack);
        ghost var frames := TopFirst(stateStack);
        ghost var caps := capture[..];
        var rs := stateStack[|stateStack| - 1];
        ghost var rest := TopFirst(stateStack[..|stateStack| - 1]);
        assert frames[0] == rs && frames[1..] == rest;
        n := n + 1;
        if !ret && rs.kind.Greedy? {
          pc, cptr := ResumeGreedy(rs);
          resumed := true;
          return;
        }
        stateStack := stateStack[..|stateStack| - 1];
        if rs.kind.Split? && !ret {
          RestoreCapture(rs);
          RestoreStack(rs);
          resumed, pc, cptr := true, rs.pc, rs.cptr;
          return;
        } else if rs.kind.LookPositive? || rs.kind.LookNegative? {
          var go := if rs.kind.LookPositive? then ret else !ret;
          ret := go;
          if go {
            if rs.kind.LookNegative? {
              RestoreCapture(rs);
            }
            RestoreStack(rs);
            resumed, pc, cptr := true, rs.pc, rs.cptr;
            return;
          }
        }
      }
      StepsSnoc(m, n, c);
      n := n + 1;
    }

    /** The top state is shortened in place by one round, and dropped when no shorter one is left. */
    method ResumeGreedy(rs: Frame) returns (pc: nat, cptr: nat)
      requires Valid() && stateStack != [] && rs == stateStack[|stateStack| - 1] && rs.kind.Greedy?
      requires |rs.cap| == 2 && |rs.stack| <= stack.Length
      requires !Backtrack(Engine(), TopFirst(stateStack)).Stuck?
      modifies this, capture, stack
      ensures Valid() && Backtrack(Engine(), old(TopFirst(stateStack))) == State(pc, cptr)
    {
      hide TopFirst, GetOff, GetU32, Jump;
      TopPop(stateStack);
      ghost var rest := TopFirst(stateStack[..|stateStack| - 1]);
      assert TopFirst(stateStack)[0] == rs && TopFirst(stateStack)[1..] == rest;
      RestoreCapture(rs);
      RestoreStack(rs);
      var charCount := GetU32(bcBuf, rs.pc + 12);
      U32Natural(bcBuf, rs.pc + 12);
      cptr := rs.cptr;
      // go backward
      for i := 0 to charCount
        invariant cptr == rs.cptr - i
      {
        cptr := cptr - 1;
      }
      pc := Jump(rs.pc + 16, GetOff(bcBuf, rs.pc));
      var f := rs.(cptr := cptr, count := rs.count - 1);
      if f.count == 0 {
        stateStack := stateStack[..|stateStack| - 1];
      } else {
        TopUpdate(stateStack, f);
        stateStack := stateStack[|stateStack| - 1 := f];
      }
    }

    /** The interpreter: it returns with the result the machine reaches. */
    method ExecBacktrack(pc0: nat, cptr0: nat, ghost prog: seq<Instr>, ghost total: nat) returns (ret: bool)
      requires Valid() && ProgramAt(bcBuf, prog)
      requires Good(Engine(), prog, stack.Length, State(pc0, cptr0))
               && Halted(Steps(Engine(), total, State(pc0, cptr0)))
      modifies this, capture, stack
      ensures Valid()
      ensures Steps(Engine(), total, old(State(pc0, cptr0))) == if ret then Matched(capture[..]) else NoMatch
    {
      hide ProgramAt, Decode, OnProgram, RangeSorted, Good, Steps, TopFirst, Exec, Step;
      ghost var m, c0 := Engine(), State(pc0, cptr0);
      var pc, cptr := pc0, cptr0;
      ghost var left := total;
      while true
        invariant Valid() && Good(m, prog, stack.Length, State(pc, cptr))
        invariant Halted(Steps(m, left, State(pc, cptr))) && Steps(m, left, State(pc, cptr)) == Steps(m, total, c0)
        decreases left
      {
        ghost var c := State(pc, cptr);
        RunGood(m, prog, stack.Length, c);
        var i := Decode(bcBuf, pc).value;
        var st: Status;
        ghost var n := 1;
        if i.IGreedy? {
          st, pc, cptr, n := ExecGreedy(pc, cptr, i, prog, left);
        } else {
          st, pc, cptr := ExecOp(pc, cptr, i);
          StepsOne(m, c);
        }
        if !st.Continue? {
          ghost var d := Unwinding(st.MatchHere?, capture[..], TopFirst(stateStack));
          assert Steps(m, n, c) == d;
          GoodLater(m, prog, stack.Length, c, n);
          var resumed;
          ghost var k;
          resumed, ret, pc, cptr, k := Recurse(st.MatchHere?, prog);
          StepsAdd(m, n, k, c);
          n := n + k;
          if !resumed {
            SameResult(m, c, left, n);
            return;
          }
        }
        Advance(m, c, left, n);
        GoodLater(m, prog, stack.Length, c, n);
        left := left - n;
      }
    }
  }

  /** The configuration of a run that ended at a match or a failure. */
  ghost function Unwinding(ret: bool, cap: seq<Option<nat>>, frames: seq<Frame>): Config {
    if ret then Success(cap, frames) else Fail(frames)
  }

  /** The program, ended by a match instruction and with sorted classes, stands behind the header. */
  ghost predicate ProgramAt(code: seq<byte>, prog: seq<Instr>) {
    At(code, HEADER_LEN, prog) && RangesSorted(prog) && prog != [] && prog[|prog| - 1].IMatch?
  }

  lemma StepsNone(m: Machine, c: Config)
    ensures Steps(m, 0, c) == c
  {}

  lemma StepsSnoc(m: Machine, n: nat, c: Config)
    ensures Steps(m, n + 1, c) == Step(m, Steps(m, n, c))
  {
    StepsAdd(m, n, 1, c);
    StepsOne(m, Steps(m, n, c));
  }

  lemma Advance(m: Machine, c: Config, left: nat, n: nat)
    requires Halted(Steps(m, left, c)) && !Halted(Steps(m, n, c))
    ensures n < left && Steps(m, left - n, Steps(m, n, c)) == Steps(m, left, c)
  {
    hide Steps;
    if n >= left {
      StepsAdd(m, left, n - left, c);
      HaltedStays(m, n - left, Steps(m, left, c));
    } else {
      StepsAdd(m, n, left - n, c);
    }
  }

  lemma SameResult(m: Machine, c: Config, j: nat, k: nat)
    requires Halted(Steps(m, j, c)) && Halted(Steps(m, k, c))
    ensures Steps(m, j, c) == Steps(m, k, c)
  {
    ResultUnique(m, c, Steps(m, j, c), Steps(m, k, c));
  }

  /** What a good configuration at an instruction guarantees. */
  lemma RunGood(m: Machine, prog: seq<Instr>, size: nat, c: Config)
    requires ProgramAt(m.code, prog) && Good(m, prog, size, c) && c.Run?
    ensures c.cptr <= |m.subject.text| && OnProgram(prog, c.pc)
    ensures Decode(m.code, c.pc).Some? && RangeSorted(Decode(m.code, c.pc).value)
    ensures
      var d := Exec(m, Decode(m.code, c.pc).value, c);
      Step(m, c) == d && !d.Stuck? && (d.Run? ==> |d.stack| <= size)
  {
    hide Decode, Exec, Good, RangeSorted, OnProgram, CapsOk;
    GoodNow(m, prog, size, c);
    GoodLater(m, prog, size, c, 1);
    StepsOne(m, c);
    GoodNow(m, prog, size, Step(m, c));
    var j := InstrHere(m.code, prog, c.pc);
  }

  /** A saved state is resumed within the buffers. */
  lemma UnwindGood(m: Machine, prog: seq<Instr>, size: nat, c: Config, n: nat)
    requires Good(m, prog, size, c)
    ensures
      var d := Step(m, Steps(m, n, c));
      !d.Stuck? && (d.Run? ==> |d.stack| <= size && |d.cap| == 2)
  {
    hide Step, Good;
    GoodLater(m, prog, size, c, n + 1);
    StepsSnoc(m, n, c);
    GoodNow(m, prog, size, Steps(m, n + 1, c));
  }

  lemma RunSimpleUnfold(m: Machine, pc: nat, i: Instr, p: nat)
    requires p <= |m.subject.text| && Decode(m.code, pc) == Some(i) && RunSimple(m, pc, p) != SimpleStuck
    ensures i.IMatch? || IsCharOp(i) || IsAssertion(i)
    ensures i.IMatch? ==> RunSimple(m, pc, p) == SimpleEnd(p)
    ensures IsCharOp(i) ==>
              RunSimple(m, pc, p) ==
              (if p < |m.subject.text| && Accepts(i, m.subject.text[p]) then RunSimple(m, pc + Size(i),
                  p + 1) else SimpleFail)
    ensures IsAssertion(i) ==>
              RunSimple(m, pc, p) == (if Holds(i, m.subject, p) then RunSimple(m, pc + Size(i), p) else SimpleFail)
  {
    hide Accepts, Holds, Decode;
  }

  lemma LastIsMatch(code: seq<byte>, prog: seq<Instr>)
    requires ProgramAt(code, prog)
    ensures prog[|prog| - 1].IMatch?
  {}

  lemma U32Natural(code: seq<byte>, p: nat)
    requires p + 4 <= |code|
    ensures GetU32(code, p) >= 0
  {}

  lemma DecodeInside(code: seq<byte>, pc: nat)
    requires Decode(code, pc).Some?
    ensures pc < |code|
  {}

  // The greedy instruction.

  lemma GreedyStart(m: Machine, prog: seq<Instr>, pc: nat, i: Instr, c: Config)
    requires ProgramAt(m.code, prog) && OnProgram(prog, pc) && Decode(m.code, pc) == Some(i) && i.IGreedy?
    requires c.Run? && c.pc == pc && c.cptr <= |m.subject.text|
    ensures Steps(m, 1, c) == Repeating(pc + 1, 0, c.cptr, c.stack, c.cap, c.frames)
    ensures OnProgram(prog, pc + 17) && i.min >= 0
    ensures pc + 17 <= |m.code| && GetOff(m.code, pc + 1) == i.next
    ensures GetU32(m.code, pc + 5) == i.min && GetU32(m.code, pc + 9) == i.max
  {
    GreedyStep(m, pc, i, c);
    GreedyReads(m.code, pc, i);
    hide GetOff, GetU16, GetU32, GetPairs, At, RangeSorted, OnProgram, Decode, Steps, Step;
    var j := InstrHere(m.code, prog, pc);
    NextHere(prog, j, i, pc);
  }

  lemma GreedyStep(m: Machine, pc: nat, i: Instr, c: Config)
    requires Decode(m.code, pc) == Some(i) && i.IGreedy? && c.Run? && c.pc == pc && c.cptr <= |m.subject.text|
    ensures Steps(m, 1, c) == Repeating(pc + 1, 0, c.cptr, c.stack, c.cap, c.frames)
  {
    hide Decode;
    StepsOne(m, c);
  }

  lemma GreedyReads(code: seq<byte>, pc: nat, i: Instr)
    requires Decode(code, pc) == Some(i) && i.IGreedy?
    ensures i.min >= 0 && pc + 17 <= |code| && GetOff(code, pc + 1) == i.next
    ensures GetU32(code, pc + 5) == i.min && GetU32(code, pc + 9) == i.max
  {
    hide GetOff, GetU16, GetPairs;
  }

  /** Between rounds the machine is not done, and the next round is decided. */
  lemma RepeatGood(m: Machine, prog: seq<Instr>, size: nat, c: Config, n: nat, left: nat)
    requires Good(m, prog, size, c) && Halted(Steps(m, left, c)) && Steps(m, n, c).Repeating?
    ensures n < left
    ensures
      var d := Steps(m, n, c);
      && d.cptr <= |m.subject.text| && d.ops + 16 <= |m.code|
      && Steps(m, n + 1, c) == StepGreedy(m, d) && !StepGreedy(m, d).Stuck?
  {
    hide Good, StepGreedy, Steps;
    Advance(m, c, left, n);
    UnwindGood(m, prog, size, c, n);
    StepsSnoc(m, n, c);
  }

  lemma RoundDone(m: Machine, c: Config, pc: nat, i: Instr, q: nat, p: nat, end: nat)
    requires c.Run? && i.IGreedy? && pc + 17 <= |m.code| && p <= |m.subject.text|
    requires Steps(m, q + 1, c) == Repeating(pc + 1, q, p, c.stack, c.cap, c.frames)
    requires Steps(m, q + 2, c) == StepGreedy(m, Steps(m, q + 1, c))
    requires GetU32(m.code, pc + 9) == i.max && !(q > 0 && q >= i.max && i.max != INF)
    requires RunSimple(m, pc + 17, p) == SimpleEnd(end)
    ensures Steps(m, q + 2, c) == Repeating(pc + 1, q + 1, end, c.stack, c.cap, c.frames)
  {
    hide RunSimple, Steps, GetOff, GetU32;
  }

  lemma RoundsDone(m: Machine, c: Config, pc: nat, i: Instr, q: nat, p: nat)
    requires c.Run? && i.IGreedy? && pc + 17 <= |m.code| && p <= |m.subject.text|
    requires Steps(m, q + 1, c) == Repeating(pc + 1, q, p, c.stack, c.cap, c.frames)
    requires Steps(m, q + 2, c) == StepGreedy(m, Steps(m, q + 1, c))
    requires GetU32(m.code, pc + 9) == i.max && GetU32(m.code, pc + 5) == i.min && GetOff(m.code, pc + 1) == i.next
    requires (q > 0 && q >= i.max && i.max != INF) || RunSimple(m, pc + 17, p) == SimpleFail
    ensures Steps(m, q + 2, c) == FinishGreedy(Steps(m, q + 1, c), i.next, i.min)
  {
    hide RunSimple, Steps, GetOff, GetU32, FinishGreedy;
  }

  /** The instruction at an address of the program. */
  lemma InstrHere(code: seq<byte>, prog: seq<Instr>, pc: nat) returns (j: nat)
    requires ProgramAt(code, prog) && OnProgram(prog, pc)
    ensures j < |prog| && pc == HEADER_LEN + Length(prog[..j])
    ensures Decode(code, pc) == Some(prog[j]) && RangeSorted(prog[j])
  {
    hide At, Decode, RangeSorted, Length;
    j :| 0 <= j < |prog| && pc == HEADER_LEN + Length(prog[..j]);
    assert prog == prog[..j] + prog[j..];
    AtSplit(code, HEADER_LEN, prog[..j], prog[j..]);
    AtFetch(code, pc, prog[j..]);
  }

  lemma NextHere(prog: seq<Instr>, j: nat, i: Instr, pc: nat)
    requires j < |prog| && prog[j] == i && pc == HEADER_LEN + Length(prog[..j])
    ensures j + 1 < |prog| ==> OnProgram(prog, pc + Size(i))
  {
    hide Length, Size;
    if j + 1 < |prog| {
      StepBoundary(prog, j);
    }
  }

  lemma CompiledProgramAt(code: seq<byte>, r: Regex, flags: byte)
    requires WellFormed(r) && Compiled(code, r, flags) && |code| < 0x8000_0000
    ensures ProgramAt(code, Program(r, HasFlag(flags, FLAG_STICKY)))
  {
    hide At, Compiled, Emit, RangeSorted;
    CompiledAt(code, r, flags);
    ProgramSorted(r, HasFlag(flags, FLAG_STICKY));
  }

  /** lre_exec on what lre_compile returned: it terminates, within the stack size the header records, and
      reports exactly the match that the backtracking semantics of section 22.2.2 of ECMA-262 finds first,
      or no match. */
  method LreExec(code: seq<byte>, text: seq<nat>, cindex: nat, ghost r: Regex, ghost flags: byte)
    returns (ret: bool, captures: seq<Option<nat>>)
    requires WellFormed(r) && LazyFits(r, Subject(text, HasFlag(flags, FLAG_MULTILINE))) && Compiled(code, r, flags)
             && |code| < 0x8000_0000
    requires cindex <= |text| && forall i :: 0 <= i < |text| ==> text[i] <= 0x10_ffff
    ensures
      var found := Search(r, Subject(text, HasFlag(flags, FLAG_MULTILINE)), cindex, HasFlag(flags, FLAG_STICKY));
      match found
      case NotFound => !ret
      case FoundAt(start, end) => ret && captures == [Some(start), Some(end)]
  {
    hide Program, Search, Steps, Highest, Good, ProgramAt;
    var s := Subject(text, HasFlag(code[0], FLAG_MULTILINE));
    var context := new ExecContext(code, s, code[2]);
    ghost var start := Run(HEADER_LEN, cindex, [], NO_CAPTURE, []);
    assert context.State(HEADER_LEN, cindex) == start;
    CompiledRuns(code, r, flags, s, cindex);
    ghost var found := Outcome(Search(r, s, cindex, HasFlag(flags, FLAG_STICKY)));
    ghost var total: nat :| Steps(Machine(code, s), total, start) == found;
    StartGood(code, r, flags, s, cindex, total);
    CompiledProgramAt(code, r, flags);
    ret := context.ExecBacktrack(HEADER_LEN, cindex, Program(r, HasFlag(flags, FLAG_STICKY)), total);
    captures := context.capture[..];
  }
}
