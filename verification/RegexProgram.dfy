/** The main theorem of the engine: running the compiled program halts with the match that the backtracking
    semantics finds first, or with no match when there is none. */
module RegexProgram {
  import opened Byte
  import opened RegexSyntax
  import opened RegexCode
  import opened RegexEmit
  import opened RegexVm
  import opened RegexOffers
  import opened RegexBlocks
  import opened RegexCorrect

  const NO_CAPTURE: seq<Option<nat>> := [None, None]

  function Outcome(f: Found): Config {
    match f
    case NotFound => NoMatch
    case FoundAt(start, end) => Matched([Some(start), Some(end)])
  }

  ghost function Tail(r: Regex): seq<Instr>
    requires WellFormed(r)
  {
    [ISaveStart(0)] + Emit(r) + [ISaveEnd(0)] + [IMatch]
  }

  lemma TailAt(code: seq<byte>, pc: nat, r: Regex)
    requires WellFormed(r) && At(code, pc, Tail(r))
    ensures Decode(code, pc) == Some(ISaveStart(0)) && At(code, pc + 2, Emit(r))
    ensures Decode(code, pc + 2 + Length(Emit(r))) == Some(ISaveEnd(0))
    ensures Decode(code, pc + 4 + Length(Emit(r))) == Some(IMatch)
  {
    hide At, Decode, Emit, Length;
    assert Tail(r) == [ISaveStart(0)] + (Emit(r) + ([ISaveEnd(0)] + [IMatch]));
    AtCons(code, pc, ISaveStart(0), Emit(r) + ([ISaveEnd(0)] + [IMatch]));
    AtAppend(code, pc + 2, Emit(r), [ISaveEnd(0)] + [IMatch]);
    AtCons(code, pc + 2 + Length(Emit(r)), ISaveEnd(0), [IMatch]);
    AtFetch(code, pc + 4 + Length(Emit(r)), [IMatch]);
  }

  /** The attempt at one position, given what the pattern's code offers: the first position offered wins. */
  lemma TailFinds(m: Machine, pc: nat, r: Regex, p: nat, base: seq<Frame>, ends: seq<nat>)
    requires WellFormed(r) && At(m.code, pc, Tail(r)) && p <= |m.subject.text| && Quiet(base)
             && Forward(m.subject, p, ends)
    requires Offers(m, Run(pc + 2, p, [], [Some(p), None], base), pc + 2 + Length(Emit(r)), [], [Some(p), None], base,
                    ends)
    ensures ends == [] ==> Reaches(m, Run(pc, p, [], NO_CAPTURE, base), Fail(base))
    ensures ends != [] ==> Reaches(m, Run(pc, p, [], NO_CAPTURE, base), Matched([Some(p), Some(ends[0])]))
  {
    hide At, Decode, Emit, Length, Reaches, Offers, Tail;
    var exit := pc + 2 + Length(Emit(r));
    var cap: seq<Option<nat>> := [Some(p), None];
    var c, d := Run(pc, p, [], NO_CAPTURE, base), Run(pc + 2, p, [], cap, base);
    TailAt(m.code, pc, r);
    ReachesExec(m, c, ISaveStart(0));
    assert NO_CAPTURE[0 := Some(p)] == cap;
    if ends == [] {
      NoOffer(m, d, exit, [], cap, base);
      ReachesTrans(m, c, d, Fail(base));
    } else {
      var g := FirstOffer(m, d, exit, [], cap, base, ends);
      var e := Run(exit, ends[0], [], cap, g + base);
      ReachesTrans(m, c, d, e);
      TailEnds(m, exit, p, ends[0], g + base);
      ReachesTrans(m, c, e, Matched([Some(p), Some(ends[0])]));
    }
  }

  lemma NoOffer(m: Machine, c: Config, exit: nat, stack: seq<int>, cap: seq<Option<nat>>, base: seq<Frame>)
    requires Offers(m, c, exit, stack, cap, base, [])
    ensures Reaches(m, c, Fail(base))
  {
    hide Reaches;
  }

  lemma FirstOffer(m: Machine, c: Config, exit: nat, stack: seq<int>, cap: seq<Option<nat>>, base: seq<Frame>,
                   ends: seq<nat>)
    returns (g: seq<Frame>)
    requires Offers(m, c, exit, stack, cap, base, ends) && ends != []
    ensures Quiet(g) && Reaches(m, c, Run(exit, ends[0], stack, cap, g + base))
  {
    hide Reaches;
    g :| && Quiet(g)
         && Reaches(m, c, Run(exit, ends[0], stack, cap, g + base))
         && Offers(m, Fail(g + base), exit, stack, cap, base, ends[1..]);
  }

  /** The attempt at one position: all of the pattern's matches are tried, the first one wins. */
  lemma TailRuns(m: Machine, pc: nat, r: Regex, p: nat, base: seq<Frame>)
    requires WellFormed(r) && LazyFits(r, m.subject) && SubjectOk(m.subject) && At(m.code, pc, Tail(r))
             && p <= |m.subject.text| && Quiet(base)
    ensures Matches(r, m.subject, p) == [] ==> Reaches(m, Run(pc, p, [], NO_CAPTURE, base), Fail(base))
    ensures Matches(r, m.subject, p) != [] ==>
              Reaches(m, Run(pc, p, [], NO_CAPTURE, base), Matched([Some(p), Some(Matches(r, m.subject, p)[0])]))
  {
    hide At, Emit, Length, Matches, Reaches, SubjectOk, Offers, LazyFits;
    TailAt(m.code, pc, r);
    EmitImplements(m, pc + 2, r);
    assert From(m, pc + 2, p, [], pc + 2 + Length(Emit(r)), [], [Some(p), None], Matches(r, m.subject, p));
    TailFinds(m, pc, r, p, base, Matches(r, m.subject, p));
  }

  lemma TailEnds(m: Machine, exit: nat, p: nat, q: nat, frames: seq<Frame>)
    requires q <= |m.subject.text| && Quiet(frames)
    requires Decode(m.code, exit) == Some(ISaveEnd(0)) && Decode(m.code, exit + 2) == Some(IMatch)
    ensures Reaches(m, Run(exit, q, [], [Some(p), None], frames), Matched([Some(p), Some(q)]))
  {
    hide Decode, Reaches;
    var cap, cap': seq<Option<nat>> := [Some(p), None], [Some(p), Some(q)];
    assert cap[1 := Some(q)] == cap';
    var c, d := Run(exit, q, [], cap, frames), Run(exit + 2, q, [], cap', frames);
    ReachesExec(m, c, ISaveEnd(0));
    ReachesExec(m, d, IMatch);
    ReachesTrans(m, c, d, Success(cap', frames));
    assert frames + [] == frames;
    ReachesUnwind(m, cap', frames, []);
    ReachesTrans(m, c, Success(cap', frames), Success(cap', []));
    ReachesSelf(m, Matched(cap'));
    ReachesStep(m, Success(cap', []), Matched(cap'));
    ReachesTrans(m, c, Success(cap', []), Matched(cap'));
  }

  /** The search loop before a pattern that is not sticky. */
  lemma {:induction false} LoopRuns(m: Machine, pc: nat, r: Regex, p: nat)
    requires WellFormed(r) && LazyFits(r, m.subject) && SubjectOk(m.subject) && p <= |m.subject.text|
    requires Decode(m.code, pc) == Some(ISplitGotoFirst(6)) && Decode(m.code, pc + 5) == Some(IAny)
    requires Decode(m.code, pc + 6) == Some(IGoto(-11)) && At(m.code, pc + 11, Tail(r))
    ensures Reaches(m, Run(pc, p, [], NO_CAPTURE, []), Outcome(Search(r, m.subject, p, false)))
    decreases |m.subject.text| - p
  {
    hide At, Decode, Matches, Reaches, SubjectOk, Tail;
    var f := Frame(Split, 0, p, pc + 5, NO_CAPTURE, []);
    var c, d, e := Run(pc, p, [], NO_CAPTURE, []), Run(pc + 11, p, [], NO_CAPTURE, [f]),
        Run(pc + 5, p, [], NO_CAPTURE, []);
    assert [f] + [] == [f] && [f][1..] == [];
    ReachesExec(m, c, ISplitGotoFirst(6));
    TailRuns(m, pc + 11, r, p, [f]);
    if Matches(r, m.subject, p) != [] {
      ReachesTrans(m, c, d, Outcome(Search(r, m.subject, p, false)));
    } else {
      ReachesTrans(m, c, d, Fail([f]));
      ReachesBacktrack(m, f, []);
      ReachesTrans(m, c, Fail([f]), e);
      ReachesExec(m, e, IAny);
      if p == |m.subject.text| {
        ReachesTrans(m, c, e, Fail([]));
        ReachesSelf(m, NoMatch);
        ReachesStep(m, Fail([]), NoMatch);
        ReachesTrans(m, c, Fail([]), NoMatch);
      } else {
        var g, h := Run(pc + 6, p + 1, [], NO_CAPTURE, []), Run(pc, p + 1, [], NO_CAPTURE, []);
        ReachesTrans(m, c, e, g);
        ReachesExec(m, g, IGoto(-11));
        ReachesTrans(m, c, g, h);
        LoopRuns(m, pc, r, p + 1);
        ReachesTrans(m, c, h, Outcome(Search(r, m.subject, p + 1, false)));
      }
    }
  }

  lemma ProgramLayout(code: seq<byte>, pc: nat, r: Regex, sticky: bool)
    requires WellFormed(r) && At(code, pc, Program(r, sticky))
    ensures sticky ==> At(code, pc, Tail(r))
    ensures !sticky ==>
              && Decode(code, pc) == Some(ISplitGotoFirst(6)) && Decode(code, pc + 5) == Some(IAny)
              && Decode(code, pc + 6) == Some(IGoto(-11)) && At(code, pc + 11, Tail(r))
  {
    hide At, Decode, Emit, Length;
    if sticky {
      assert Program(r, sticky) == Tail(r);
    } else {
      var i, j, k := ISplitGotoFirst(6), IAny, IGoto(-11);
      assert Program(r, sticky) == [i] + ([j] + ([k] + Tail(r)));
      AtCons(code, pc, i, [j] + ([k] + Tail(r)));
      AtCons(code, pc + 5, j, [k] + Tail(r));
      AtCons(code, pc + 6, k, Tail(r));
    }
  }

  /** Compiling and running finds what the semantics finds: the run halts, and reports the start and end of
      the first choice at the first position that matches, or that nothing matches. */
  lemma ProgramRuns(m: Machine, pc: nat, r: Regex, sticky: bool, p: nat)
    requires WellFormed(r) && LazyFits(r, m.subject) && SubjectOk(m.subject) && At(m.code, pc, Program(r, sticky))
             && p <= |m.subject.text|
    ensures Reaches(m, Run(pc, p, [], NO_CAPTURE, []), Outcome(Search(r, m.subject, p, sticky)))
  {
    hide At, Decode, Matches, Reaches, SubjectOk, Program;
    var c := Run(pc, p, [], NO_CAPTURE, []);
    ProgramLayout(m.code, pc, r, sticky);
    if sticky {
      hide Tail;
      TailRuns(m, pc, r, p, []);
      if Matches(r, m.subject, p) == [] {
        ReachesSelf(m, NoMatch);
        ReachesStep(m, Fail([]), NoMatch);
        ReachesTrans(m, c, Fail([]), NoMatch);
      }
    } else {
      LoopRuns(m, pc, r, p);
    }
  }

  predicate Halted(c: Config) {
    c.Matched? || c.NoMatch?
  }

  lemma {:induction false} HaltedStays(m: Machine, n: nat, c: Config)
    requires Halted(c)
    ensures Steps(m, n, c) == c
  {
    if n > 0 {
      HaltedStays(m, n - 1, c);
    }
  }

  /** A run has one result. */
  lemma ResultUnique(m: Machine, c: Config, d: Config, e: Config)
    requires Reaches(m, c, d) && Reaches(m, c, e) && Halted(d) && Halted(e)
    ensures d == e
  {
    hide Step;
    var j: nat :| Steps(m, j, c) == d;
    var k: nat :| Steps(m, k, c) == e;
    if j <= k {
      StepsAdd(m, j, k - j, c);
      HaltedStays(m, k - j, d);
    } else {
      StepsAdd(m, k, j - k, c);
      HaltedStays(m, j - k, e);
    }
  }
}
