/** Every reachable state of the interpreter has the counter-stack depth the linear scan computed for its
    address, also after backtracking and after a lookahead restored an older state. */
module RegexDepth {
  import opened Byte
  import opened RegexSyntax
  import opened RegexCode
  import opened RegexEmit
  import opened RegexVm
  import opened RegexProgram
  import opened RegexStack

  /** The program without its last match instruction. */
  ghost function Body(r: Regex, sticky: bool): seq<Instr>
    requires WellFormed(r)
  {
    (if sticky then [] else [ISplitGotoFirst(6), IAny, IGoto(-11)]) + [ISaveStart(0)] + Emit(r) + [ISaveEnd(0)]
  }

  lemma SearchLoopSafe()
    ensures Safe([ISplitGotoFirst(6), IAny, IGoto(-11)])
  {
    hide InstrSafe, Boundary, Length, Net;
    var i, j, k := ISplitGotoFirst(6), IAny, IGoto(-11);
    var prog := [i, j, k];
    assert prog == [] + [i] + [j, k] == [i] + [j] + [k] == [i, j] + [k] + [] == prog + [] == [] + prog;
    Measure([i], [j], [k]);
    Measure([j], [k], []);
    assert [i] + [j] == [i, j] && [i] + [j] + [k] == prog && [j] + [k] == [j, k];
    BoundaryHere(prog, []);
    BoundaryHere([], prog);
    InstrAt(prog, [], i, [j, k], 11, 0);
    InstrAt(prog, [i], j, [k], 11, 0);
    InstrAt(prog, [i, j], k, [], 0, 0);
  }

  lemma BodySafe(r: Regex, sticky: bool)
    requires WellFormed(r)
    ensures Safe(Body(r, sticky)) && Program(r, sticky) == Body(r, sticky) + [IMatch]
  {
    hide Safe, Emit;
    var loop := if sticky then [] else [ISplitGotoFirst(6), IAny, IGoto(-11)];
    SearchLoopSafe();
    EmptySafe();
    AtomSafe(ISaveStart(0));
    AtomSafe(ISaveEnd(0));
    EmitSafe(r);
    SafeConcat(loop, [ISaveStart(0)]);
    SafeConcat(loop + [ISaveStart(0)], Emit(r));
    SafeConcat(loop + [ISaveStart(0)] + Emit(r), [ISaveEnd(0)]);
  }

  /** The address pc belongs to the scan at depth n. */
  ghost predicate Sited(prog: seq<Instr>, pc0: nat, pc: int, n: nat) {
    Boundary(prog, pc - pc0, n)
  }

  /** A saved state resumes at an address of its own depth. */
  ghost predicate FrameOk(m: Machine, prog: seq<Instr>, pc0: nat, f: Frame) {
    if f.kind.Greedy? then ResumeOk(m, prog, pc0, f.pc, |f.stack|) else Sited(prog, pc0, f.pc, |f.stack|)
  }

  /** Where the greedy instruction with operands at ops continues. */
  ghost predicate ResumeOk(m: Machine, prog: seq<Instr>, pc0: nat, ops: nat, n: nat) {
    ops + 16 <= |m.code| ==> Sited(prog, pc0, Jump(ops + 16, GetOff(m.code, ops)), n)
  }

  ghost predicate FramesOk(m: Machine, prog: seq<Instr>, pc0: nat, frames: seq<Frame>) {
    forall i :: 0 <= i < |frames| ==> FrameOk(m, prog, pc0, frames[i])
  }

  ghost predicate DepthOk(m: Machine, prog: seq<Instr>, pc0: nat, c: Config) {
    match c
    case Run(pc, _, stack, _, frames) => Sited(prog, pc0, pc, |stack|) && FramesOk(m, prog, pc0, frames)
    case Repeating(ops, _, _, stack, _, frames) => ResumeOk(m, prog, pc0, ops, |stack|)
      && FramesOk(m, prog, pc0, frames)
    case Fail(frames) => FramesOk(m, prog, pc0, frames)
    case Success(_, frames) => FramesOk(m, prog, pc0, frames)
    case _ => true
  }

  lemma PushOk(m: Machine, prog: seq<Instr>, pc0: nat, f: Frame, frames: seq<Frame>)
    requires FrameOk(m, prog, pc0, f) && FramesOk(m, prog, pc0, frames)
    ensures FramesOk(m, prog, pc0, [f] + frames)
  {
    hide FrameOk;
  }

  lemma RestOk(m: Machine, prog: seq<Instr>, pc0: nat, frames: seq<Frame>)
    requires FramesOk(m, prog, pc0, frames) && frames != []
    ensures FrameOk(m, prog, pc0, frames[0]) && FramesOk(m, prog, pc0, frames[1..])
  {
    hide FrameOk;
  }

  /** What the scan knows about the instruction at a sited address. */
  lemma Fetch(code: seq<byte>, prog: seq<Instr>, pc0: nat, pc: nat, n: nat) returns (i: Instr)
    requires At(code, pc0, prog + [IMatch]) && Sited(prog, pc0, pc, n) && Safe(prog)
    ensures Decode(code, pc) == Some(i)
    ensures i.IMatch? || Boundary(prog, pc + Size(i) - pc0, n + Delta(i))
    ensures Jumps(i) ==> Boundary(prog, pc + Size(i) - pc0 + Offset(i), n + Delta(i))
    ensures Pops(i) ==> n >= 1
  {
    hide At, Decode, Boundary, Delta, Length, Net, Size;
    var j := BoundaryIndex(prog, pc - pc0, n);
    FetchIndex(code, prog, pc0, j);
    if j < |prog| {
      i := prog[j];
      StepBoundary(prog, j);
      assert InstrSafe(prog, j);
    } else {
      i := IMatch;
    }
  }

  lemma FetchIndex(code: seq<byte>, prog: seq<Instr>, pc0: nat, j: nat)
    requires At(code, pc0, prog + [IMatch]) && j <= |prog|
    ensures Decode(code, pc0 + Length(prog[..j])) == Some(if j < |prog| then prog[j] else IMatch)
  {
    hide At, Decode, Length;
    var a, b := prog[..j], prog[j..] + [IMatch];
    assert prog + [IMatch] == a + b;
    AtSplit(code, pc0, a, b);
    AtFetch(code, pc0 + Length(a), b);
  }

  lemma StepBoundary(prog: seq<Instr>, j: nat)
    requires j < |prog|
    ensures Length(prog[..j + 1]) == Length(prog[..j]) + Size(prog[j])
            && Net(prog[..j + 1]) == Net(prog[..j]) + Delta(prog[j])
    ensures Boundary(prog, Length(prog[..j + 1]), Net(prog[..j + 1]))
  {
    hide *;
    Cut(prog, j);
    PrefixMeasure(prog, prog[..j], prog[j], prog[j + 1..]);
    BoundaryHere(prog[..j + 1], prog[j + 1..]);
  }

  /** A jump target is a natural number. */
  lemma TargetNatural(prog: seq<Instr>, pc0: nat, target: int, n: int)
    requires Boundary(prog, target - pc0, n)
    ensures Jump(target, 0) == target
  {
    BoundaryNatural(prog, target - pc0, n);
  }

  /** What Fetch says of the instruction. */
  ghost predicate Lands(prog: seq<Instr>, pc0: nat, pc: nat, n: nat, i: Instr) {
    && (i.IMatch? || Boundary(prog, pc + Size(i) - pc0, n + Delta(i)))
    && (Jumps(i) ==> Boundary(prog, pc + Size(i) - pc0 + Offset(i), n + Delta(i)))
    && (Pops(i) ==> n >= 1)
  }

  lemma ExecKeeps(m: Machine, prog: seq<Instr>, pc0: nat, c: Config)
    requires At(m.code, pc0, prog + [IMatch]) && Safe(prog)
    requires c.Run? && DepthOk(m, prog, pc0, c) && c.cptr <= |m.subject.text|
    ensures DepthOk(m, prog, pc0, Step(m, c))
  {
    hide At, Decode, Boundary, Safe, Accepts, Holds, FramesOk, Exec;
    var i := Fetch(m.code, prog, pc0, c.pc, |c.stack|);
    assert Step(m, c) == Exec(m, i, c);
    if IsJump(i) {
      JumpKeeps(m, prog, pc0, c, i);
    } else {
      PlainKeeps(m, prog, pc0, c, i);
    }
  }

  lemma JumpKeeps(m: Machine, prog: seq<Instr>, pc0: nat, c: Config, i: Instr)
    requires c.Run? && DepthOk(m, prog, pc0, c) && c.cptr <= |m.subject.text|
    requires Lands(prog, pc0, c.pc, |c.stack|, i) && IsJump(i)
    ensures DepthOk(m, prog, pc0, Exec(m, i, c))
  {
    hide Boundary, FramesOk;
    var next := c.pc + Size(i);
    TargetNatural(prog, pc0, next + Offset(i), |c.stack|);
    var d := Exec(m, i, c);
    if i.ISplitGotoFirst? || i.ISplitNextFirst? || i.ILook? {
      PushOk(m, prog, pc0, d.frames[0], c.frames);
    }
  }

  lemma PlainKeeps(m: Machine, prog: seq<Instr>, pc0: nat, c: Config, i: Instr)
    requires c.Run? && DepthOk(m, prog, pc0, c) && c.cptr <= |m.subject.text| && Decode(m.code, c.pc) == Some(i)
    requires Lands(prog, pc0, c.pc, |c.stack|, i) && !IsJump(i)
    ensures DepthOk(m, prog, pc0, Exec(m, i, c))
  {
    hide Boundary, FramesOk, Decode, Accepts, Holds, GetOff;
    if i.IGreedy? {
      TargetNatural(prog, pc0, c.pc + Size(i) + Offset(i), |c.stack|);
      GreedyNext(m, c.pc, i);
    }
  }

  lemma GreedyNext(m: Machine, pc: nat, i: Instr)
    requires Decode(m.code, pc) == Some(i) && i.IGreedy?
    ensures GetOff(m.code, pc + 1) == i.next
  {
    hide GetOff, GetU32, GetU16, GetPairs;
  }

  lemma RepeatKeeps(m: Machine, prog: seq<Instr>, pc0: nat, c: Config)
    requires c.Repeating? && DepthOk(m, prog, pc0, c)
    ensures DepthOk(m, prog, pc0, Step(m, c))
  {
    hide Boundary, RunSimple, GetOff, GetU32;
    var d := Step(m, c);
    if d.Run? && |d.frames| > |c.frames| {
      PushOk(m, prog, pc0, d.frames[0], c.frames);
    }
  }

  lemma UndoKeeps(m: Machine, prog: seq<Instr>, pc0: nat, c: Config)
    requires (c.Fail? || c.Success?) && DepthOk(m, prog, pc0, c)
    ensures DepthOk(m, prog, pc0, Step(m, c))
  {
    hide Boundary, GetOff, GetU32;
    var frames := c.frames;
    if frames != [] {
      RestOk(m, prog, pc0, frames);
      if frames[0].kind.Greedy? {
        var f := frames[0];
        var d := Step(m, c);
        if d.Run? && |d.frames| == |frames| {
          PushOk(m, prog, pc0, d.frames[0], frames[1..]);
        }
      }
    }
  }

  lemma StepKeeps(m: Machine, prog: seq<Instr>, pc0: nat, c: Config)
    requires At(m.code, pc0, prog + [IMatch]) && Safe(prog) && DepthOk(m, prog, pc0, c)
    ensures DepthOk(m, prog, pc0, Step(m, c))
  {
    hide At, Safe, Sited, FramesOk, ResumeOk, Exec, StepGreedy, Backtrack, Unwind, Decode;
    match c {
      case Run(_, p, _, _, _) =>
        if p <= |m.subject.text| {
          ExecKeeps(m, prog, pc0, c);
        }
      case Repeating(_, _, _, _, _, _) => RepeatKeeps(m, prog, pc0, c);
      case Fail(_) => UndoKeeps(m, prog, pc0, c);
      case Success(_, _) => UndoKeeps(m, prog, pc0, c);
      case _ =>
    }
  }

  lemma {:induction false} StepsKeep(m: Machine, prog: seq<Instr>, pc0: nat, n: nat, c: Config)
    requires At(m.code, pc0, prog + [IMatch]) && Safe(prog) && DepthOk(m, prog, pc0, c)
    ensures DepthOk(m, prog, pc0, Steps(m, n, c))
  {
    hide At, Safe, DepthOk, Step;
    if n > 0 {
      StepKeeps(m, prog, pc0, c);
      StepsKeep(m, prog, pc0, n - 1, Step(m, c));
    }
  }

  lemma StartDepth(m: Machine, prog: seq<Instr>, pc: nat, p: nat)
    ensures DepthOk(m, prog, pc, Run(pc, p, [], NO_CAPTURE, []))
  {}

  /** The depth the scan of the program computes at an address. */
  ghost predicate ScannedDepth(r: Regex, sticky: bool, addr: int, n: int)
    requires WellFormed(r)
  {
    Boundary(Body(r, sticky), addr, n)
  }

  /** After any number of steps from the start, with any jumps, backtracks and restores in between: the
      interpreter is at an instruction, its stack has exactly the scanned depth, which never exceeds the
      stored size, and an instruction that pops finds something to pop. */
  lemma StackExact(m: Machine, pc: nat, r: Regex, sticky: bool, p: nat, n: nat)
    requires WellFormed(r) && At(m.code, pc, Program(r, sticky))
    ensures
      var c := Steps(m, n, Run(pc, p, [], NO_CAPTURE, []));
      c.Run? ==>
        && ScannedDepth(r, sticky, c.pc - pc, |c.stack|)
        && |c.stack| <= Highest(Program(r, sticky), 0)
        && Decode(m.code, c.pc).Some?
        && (Pops(Decode(m.code, c.pc).value) ==> c.stack != [])
  {
    hide At, Decode, Steps, Safe, Highest, Program, Body;
    var prog := Body(r, sticky);
    var start := Run(pc, p, [], NO_CAPTURE, []);
    BodySafe(r, sticky);
    StartDepth(m, prog, pc, p);
    StepsKeep(m, prog, pc, n, start);
    var c := Steps(m, n, start);
    if c.Run? {
      hide DepthOk;
      DepthFacts(m, prog, pc, c);
    }
  }

  lemma DepthFacts(m: Machine, prog: seq<Instr>, pc: nat, c: Config)
    requires At(m.code, pc, prog + [IMatch]) && Safe(prog) && c.Run? && DepthOk(m, prog, pc, c)
    ensures Boundary(prog, c.pc - pc, |c.stack|) && |c.stack| <= Highest(prog + [IMatch], 0)
    ensures Decode(m.code, c.pc).Some? && (Pops(Decode(m.code, c.pc).value) ==> c.stack != [])
  {
    hide At, Decode, Safe, Highest, Boundary, FramesOk;
    var i := Fetch(m.code, prog, pc, c.pc, |c.stack|);
    BoundaryAfter(prog, [IMatch], c.pc - pc, |c.stack|);
    HighestBounds(prog + [IMatch], 0, c.pc - pc, |c.stack|);
  }

  /** The same for every saved state. */
  lemma SavedStackExact(m: Machine, pc: nat, r: Regex, sticky: bool, p: nat, n: nat, k: nat)
    requires WellFormed(r) && At(m.code, pc, Program(r, sticky))
    requires Steps(m, n, Run(pc, p, [], NO_CAPTURE, [])).Run?
    requires k < |Steps(m, n, Run(pc, p, [], NO_CAPTURE, [])).frames|
    ensures
      var f := Steps(m, n, Run(pc, p, [], NO_CAPTURE, [])).frames[k];
      (!f.kind.Greedy? ==> ScannedDepth(r, sticky, f.pc - pc, |f.stack|))
        && (f.kind.Greedy? && f.pc + 16 <= |m.code| ==>
        ScannedDepth(r, sticky, Jump(f.pc + 16, GetOff(m.code, f.pc)) - pc, |f.stack|))
  {
    hide At, Decode, Steps, Safe, Program, Body, GetOff, Boundary;
    var prog := Body(r, sticky);
    var start := Run(pc, p, [], NO_CAPTURE, []);
    BodySafe(r, sticky);
    StartDepth(m, prog, pc, p);
    StepsKeep(m, prog, pc, n, start);
    assert FrameOk(m, prog, pc, Steps(m, n, start).frames[k]);
  }
}
