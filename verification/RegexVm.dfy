/** The backtracking interpreter as a machine (libregexp.c lre_exec_backtrack): one step is one
    instruction or one popped frame. */
module RegexVm {
  import opened Byte
  import opened RegexSyntax
  import opened RegexCode

  datatype Kind = Split | LookPositive | LookNegative | Greedy

  /** A saved state. For a Greedy frame pc is the address of the operands of its instruction and count
      the number of shorter repetitions still to offer. */
  datatype Frame = Frame(kind: Kind, count: nat, cptr: nat, pc: nat, cap: seq<Option<nat>>, stack: seq<int>)

  datatype Config =
    | Run(pc: nat, cptr: nat, stack: seq<int>, cap: seq<Option<nat>>, frames: seq<Frame>)
    | Repeating(ops: nat, q: nat, cptr: nat, stack: seq<int>, cap: seq<Option<nat>>, frames: seq<Frame>)
    | Fail(frames: seq<Frame>)
    | Success(cap: seq<Option<nat>>, frames: seq<Frame>)
    | NoMatch
    | Matched(cap: seq<Option<nat>>)
    | Stuck

  datatype Machine = Machine(code: seq<byte>, subject: Subject)

  /** The membership test of the range instructions; in the 16-bit form an upper bound of 0xffff in the
      last pair means infinity. */
  predicate RangeHit(pairs: seq<(int, int)>, wide: bool, c: nat) {
    && |pairs| > 0 && pairs[0].0 <= c
    && ((!wide && c >= 0xffff && pairs[|pairs| - 1].1 == 0xffff)
        || (c <= pairs[|pairs| - 1].1 && exists i :: 0 <= i < |pairs| && pairs[i].0 <= c <= pairs[i].1))
  }

  /** Does the single-character instruction accept c? */
  predicate Accepts(i: Instr, c: nat) {
    match i
    case IChar(d) => c == d
    case IChar32(d) => c == d
    case IDot => !IsLineTerminator(c)
    case IAny => true
    case IRange(pairs) => RangeHit(pairs, false, c)
    case IRange32(pairs) => RangeHit(pairs, true, c)
    case _ => false
  }

  predicate Holds(i: Instr, s: Subject, p: nat)
    requires p <= |s.text|
  {
    match i
    case ILineStart => AtLineStart(s, p)
    case ILineEnd => AtLineEnd(s, p)
    case IWord(negated) => AtWordBoundary(s, p) != negated
    case _ => false
  }

  datatype Simple = SimpleFail | SimpleEnd(pos: nat) | SimpleStuck

  /** The recursive call of the interpreter made by the greedy instruction: runs straight-line code up to
      its match instruction. */
  function RunSimple(m: Machine, pc: nat, p: nat): Simple
    requires p <= |m.subject.text|
    decreases |m.code| - pc
  {
    match Decode(m.code, pc)
    case None => SimpleStuck
    case Some(i) =>
      assert pc < |m.code|;
      if i.IMatch? then SimpleEnd(p)
      else if IsCharOp(i) then
        if p < |m.subject.text| && Accepts(i, m.subject.text[p]) then RunSimple(m, pc + Size(i), p + 1) else SimpleFail
      else if IsAssertion(i) then
        if Holds(i, m.subject, p) then RunSimple(m, pc + Size(i), p) else SimpleFail
      else SimpleStuck
  }

  function Jump(pc: nat, off: int): nat {
    if pc + off < 0 then 0 else pc + off
  }

  function Exec(m: Machine, i: Instr, c: Config): Config
    requires c.Run? && c.cptr <= |m.subject.text|
  {
    var next := c.pc + Size(i);
    if IsCharOp(i) then
      if c.cptr < |m.subject.text| && Accepts(i, m.subject.text[c.cptr])
      then c.(pc := next, cptr := c.cptr + 1) else Fail(c.frames)
    else if IsAssertion(i) then
      if Holds(i, m.subject, c.cptr) then c.(pc := next) else Fail(c.frames)
    else
      match i
      case IMatch => Success(c.cap, c.frames)
      case IGoto(off) => c.(pc := Jump(next, off))
      case ISplitNextFirst(off) =>
        c.(pc := next, frames := [Frame(Split, 0, c.cptr, Jump(next, off), c.cap, c.stack)] + c.frames)
      case ISplitGotoFirst(off) =>
        c.(pc := Jump(next, off), frames := [Frame(Split, 0, c.cptr, next, c.cap, c.stack)] + c.frames)
      case ILook(negated, off) =>
        c.(pc := next, frames := [Frame(if negated then LookNegative else LookPositive, 0, c.cptr, Jump(next, off),
                                        c.cap, c.stack)] + c.frames)
      case ISaveStart(k) =>
        if 2 * k < |c.cap| && k >= 0 then c.(pc := next, cap := c.cap[2 * k := Some(c.cptr)]) else Stuck
      case ISaveEnd(k) =>
        if 2 * k + 1 < |c.cap| && k >= 0 then c.(pc := next, cap := c.cap[2 * k + 1 := Some(c.cptr)]) else Stuck
      case IPush(v) => c.(pc := next, stack := c.stack + [v])
      case IDrop => if c.stack == [] then Stuck else c.(pc := next, stack := c.stack[..|c.stack| - 1])
      case ILoop(off) =>
        if c.stack == [] then Stuck
        else
          var top := c.stack[|c.stack| - 1] - 1;
          c.(pc := if top != 0 then Jump(next, off) else next, stack := c.stack[..|c.stack| - 1] + [top])
      case IPushPos => c.(pc := next, stack := c.stack + [c.cptr])
      case ICheckAdvance =>
        if c.stack == [] then Stuck
        else if c.stack[|c.stack| - 1] == c.cptr then Fail(c.frames)
        else c.(pc := next, stack := c.stack[..|c.stack| - 1])
      case IGreedy(_, _, _, _) => Repeating(c.pc + 1, 0, c.cptr, c.stack, c.cap, c.frames)
      case _ => Stuck
  }

  /** One more attempt of the greedy instruction, or its end. */
  function StepGreedy(m: Machine, c: Config): Config
    requires c.Repeating? && c.cptr <= |m.subject.text| && c.ops + 16 <= |m.code|
  {
    var next, min, max := GetOff(m.code, c.ops), GetU32(m.code, c.ops + 4), GetU32(m.code, c.ops + 8);
    if c.q > 0 && c.q >= max && max != INF then FinishGreedy(c, next, min)
    else
      match RunSimple(m, c.ops + 16, c.cptr)
      case SimpleStuck => Stuck
      case SimpleFail => FinishGreedy(c, next, min)
      case SimpleEnd(p) => c.(q := c.q + 1, cptr := p)
  }

  function FinishGreedy(c: Config, next: int, min: int): Config
    requires c.Repeating?
  {
    if c.q < min then Fail(c.frames)
    else
      Run(Jump(c.ops + 16, next), c.cptr, c.stack, c.cap,
          if c.q > min && min >= 0 then [Frame(Greedy, c.q - min, c.cptr, c.ops, c.cap, c.stack)] + c.frames
          else c.frames)
  }

  /** A failure pops the top frame. */
  function Backtrack(m: Machine, frames: seq<Frame>): Config {
    if frames == [] then NoMatch
    else
      var f, rest := frames[0], frames[1..];
      match f.kind
      case Split => Run(f.pc, f.cptr, f.stack, f.cap, rest)
      case LookPositive => Fail(rest)
      case LookNegative => Run(f.pc, f.cptr, f.stack, f.cap, rest)
      case Greedy =>
        if f.pc + 16 > |m.code| then Stuck
        else
          var width := GetU32(m.code, f.pc + 12);
          if f.cptr < width || f.count == 0 then Stuck
          else
            var p := f.cptr - width;
            Run(Jump(f.pc + 16, GetOff(m.code, f.pc)), p, f.stack, f.cap,
                if f.count == 1 then rest else [f.(cptr := p, count := f.count - 1)] + rest)
  }

  /** A match instruction unwinds to the innermost lookahead, or ends the run. */
  function Unwind(c: Config): Config
    requires c.Success?
  {
    if c.frames == [] then Matched(c.cap)
    else
      var f, rest := c.frames[0], c.frames[1..];
      match f.kind
      case Split => Success(c.cap, rest)
      case Greedy => Success(c.cap, rest)
      case LookPositive => Run(f.pc, f.cptr, f.stack, c.cap, rest)
      case LookNegative => Fail(rest)
  }

  function Step(m: Machine, c: Config): Config {
    match c
    case Run(pc, p, _, _, _) =>
      if p > |m.subject.text| then Stuck
      else
        (match Decode(m.code, pc)
         case None => Stuck
         case Some(i) => Exec(m, i, c))
    case Repeating(ops, _, p, _, _, _) =>
      if p > |m.subject.text| || ops + 16 > |m.code| then Stuck else StepGreedy(m, c)
    case Fail(frames) => Backtrack(m, frames)
    case Success(_, _) => Unwind(c)
    case _ => c
  }

  function Steps(m: Machine, n: nat, c: Config): Config {
    if n == 0 then c else Steps(m, n - 1, Step(m, c))
  }

  ghost predicate Reaches(m: Machine, c: Config, d: Config) {
    exists n: nat :: Steps(m, n, c) == d
  }

  lemma {:induction false} StepsAdd(m: Machine, j: nat, k: nat, c: Config)
    ensures Steps(m, j + k, c) == Steps(m, k, Steps(m, j, c))
  {
    hide Step;
    if j > 0 {
      StepsAdd(m, j - 1, k, Step(m, c));
    }
  }

  lemma ReachesSelf(m: Machine, c: Config)
    ensures Reaches(m, c, c)
  {
    assert Steps(m, 0, c) == c;
  }

  lemma ReachesStep(m: Machine, c: Config, d: Config)
    requires Reaches(m, Step(m, c), d)
    ensures Reaches(m, c, d)
  {
    var n: nat :| Steps(m, n, Step(m, c)) == d;
    assert Steps(m, n + 1, c) == d;
  }

  lemma ReachesTrans(m: Machine, c: Config, d: Config, e: Config)
    requires Reaches(m, c, d) && Reaches(m, d, e)
    ensures Reaches(m, c, e)
  {
    var j: nat :| Steps(m, j, c) == d;
    var k: nat :| Steps(m, k, d) == e;
    StepsAdd(m, j, k, c);
    assert Steps(m, j + k, c) == e;
  }
}
