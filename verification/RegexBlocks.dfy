/** How offers compose: what a block of code offers when each of the positions it produces is continued,
    and the control structures of the emitted code (branches, lookaheads, loops with counters). */
module RegexBlocks {
  import opened RegexSyntax
  import opened RegexCode
  import opened RegexVm
  import opened RegexOffers
  import opened RegexScan

  /** The concatenation of what k gives for each start. */
  ghost function Each(k: nat -> seq<nat>, starts: seq<nat>): seq<nat> {
    if starts == [] then [] else k(starts[0]) + Each(k, starts[1..])
  }

  lemma {:induction false} EachConcat(k: nat -> seq<nat>, a: seq<nat>, b: seq<nat>)
    ensures Each(k, a + b) == Each(k, a) + Each(k, b)
  {
    if a == [] {
      assert a + b == b;
    } else {
      assert (a + b)[1..] == a[1..] + b;
      EachConcat(k, a[1..], b);
    }
  }

  /** Continuing a continuation. */
  lemma {:induction false} EachEach(j: nat -> seq<nat>, k: nat -> seq<nat>, jk: nat -> seq<nat>, starts: seq<nat>)
    requires forall i :: 0 <= i < |starts| ==> jk(starts[i]) == Each(k, j(starts[i]))
    ensures Each(jk, starts) == Each(k, Each(j, starts))
  {
    if starts != [] {
      EachEach(j, k, jk, starts[1..]);
      EachConcat(k, j(starts[0]), Each(j, starts[1..]));
      assert jk(starts[0]) == Each(k, j(starts[0]));
    }
  }

  lemma {:induction false} EachSame(j: nat -> seq<nat>, k: nat -> seq<nat>, starts: seq<nat>)
    requires forall i :: 0 <= i < |starts| ==> j(starts[i]) == k(starts[i])
    ensures Each(j, starts) == Each(k, starts)
  {
    if starts != [] {
      assert j(starts[0]) == k(starts[0]);
      EachSame(j, k, starts[1..]);
    }
  }

  lemma {:induction false} EachUnit(k: nat -> seq<nat>, starts: seq<nat>)
    requires forall i :: 0 <= i < |starts| ==> k(starts[i]) == [starts[i]]
    ensures Each(k, starts) == starts
  {
    if starts != [] {
      assert k(starts[0]) == [starts[0]];
      EachUnit(k, starts[1..]);
      assert starts == [starts[0]] + starts[1..];
    }
  }

  /** Continue with r. */
  ghost function ThenMatch(r: Regex, s: Subject): nat -> seq<nat> {
    (q: nat) => if q <= |s.text| then Matches(r, s, q) else []
  }

  /** Continue with more rounds of a. */
  ghost function ThenRep(a: Regex, min: nat, max: nat, greedy: bool, s: Subject): nat -> seq<nat> {
    (q: nat) => if q <= |s.text| then Rep(a, min, max, greedy, s, q) else []
  }

  /** Continue a round started at p: an optional round that did not advance is refused. */
  ghost function ThenRound(a: Regex, min: nat, max: nat, greedy: bool, s: Subject, p: nat): nat -> seq<nat> {
    (q: nat) => if q > |s.text| || (min == 0 && q == p) then []
         else Rep(a, if min == 0 then 0 else min - 1, Decrement(max), greedy, s, q)
  }

  lemma OptionalRound(a: Regex, max: nat, greedy: bool, s: Subject, p: nat, q: nat)
    requires p < q <= |s.text|
    ensures ThenRound(a, 0, max, greedy, s, p)(q) == Rep(a, 0, Decrement(max), greedy, s, q)
    ensures max == 1 ==> ThenRound(a, 0, max, greedy, s, p)(q) == [q]
  {}

  lemma {:induction false} SeqEachIsEach(b: Regex, s: Subject, p: nat, starts: seq<nat>)
    requires p <= |s.text| && Forward(s, p, starts)
    ensures SeqEach(b, s, p, starts) == Each(ThenMatch(b, s), starts)
    decreases |starts|
  {
    hide Matches;
    if starts != [] {
      SeqEachIsEach(b, s, p, starts[1..]);
    }
  }

  lemma {:induction false} RepEachIsEach(a: Regex, min: nat, max: nat, greedy: bool, s: Subject, p: nat,
                                         starts: seq<nat>)
    requires p <= |s.text| && Forward(s, p, starts)
    ensures RepEach(a, min, max, greedy, s, p, starts) == Each(ThenRound(a, min, max, greedy, s, p), starts)
    decreases |starts|
  {
    hide Rep;
    if starts != [] {
      RepEachIsEach(a, min, max, greedy, s, p, starts[1..]);
    }
  }

  /** Repetition unfolded once. */
  lemma RepUnfold(a: Regex, min: nat, max: nat, greedy: bool, s: Subject, p: nat)
    requires p <= |s.text| && max > 0
    ensures
      var rounds := Each(ThenRound(a, min, max, greedy, s, p), Matches(a, s, p));
      Rep(a, min, max, greedy, s, p) == if min > 0 then rounds else if greedy then rounds + [p] else [p] + rounds
  {
    RepEachIsEach(a, min, max, greedy, s, p, Matches(a, s, p));
  }

  ghost predicate Within(s: Subject, lo: nat, starts: seq<nat>) {
    forall i :: 0 <= i < |starts| ==> lo <= starts[i] <= |s.text|
  }

  /** Started at pc and position p, above any frames, the machine offers the given positions at the exit. */
  ghost predicate From(m: Machine, pc: nat, p: nat, stack: seq<int>, exit: nat, stack': seq<int>, cap: seq<Option<nat>>,
                       ends: seq<nat>) {
    forall base: seq<Frame> :: Offers(m, Run(pc, p, stack, cap, base), exit, stack', cap, base, ends)
  }

  /** From every position q >= lo at pc the machine offers k(q) at the exit. */
  ghost predicate Continues(m: Machine, pc: nat, stack: seq<int>, exit: nat, stack': seq<int>, cap: seq<Option<nat>>,
                            k: nat -> seq<nat>, lo: nat) {
    forall q: nat | lo <= q <= |m.subject.text| :: From(m, pc, q, stack, exit, stack', cap, k(q))
  }

  /** If c offers starts at an address, and every start goes on to offer k(start), c offers all of them. */
  lemma {:induction false} EachOffers(m: Machine, c: Config, pc: nat, stack: seq<int>, exit: nat, stack': seq<int>,
                                      cap: seq<Option<nat>>, base: seq<Frame>, k: nat -> seq<nat>, lo: nat,
                                          starts: seq<nat>)
    requires Offers(m, c, pc, stack, cap, base, starts) && Within(m.subject, lo, starts)
    requires Continues(m, pc, stack, exit, stack', cap, k, lo)
    ensures Offers(m, c, exit, stack', cap, base, Each(k, starts))
    decreases |starts|
  {
    hide Reaches;
    if starts != [] {
      var g :| && Quiet(g)
               && Reaches(m, c, Run(pc, starts[0], stack, cap, g + base))
               && Offers(m, Fail(g + base), pc, stack, cap, base, starts[1..]);
      hide Offers, Quiet;
      EachOffers(m, Fail(g + base), pc, stack, exit, stack', cap, base, k, lo, starts[1..]);
      assert From(m, pc, starts[0], stack, exit, stack', cap, k(starts[0]));
      OffersPre(m, c, Run(pc, starts[0], stack, cap, g + base), exit, stack', cap, g + base, k(starts[0]));
      OffersAppend(m, c, exit, stack', cap, g, base, k(starts[0]), Each(k, starts[1..]));
    }
  }

  lemma EachFrom(m: Machine, pc: nat, p: nat, stack: seq<int>, mid: nat, stackMid: seq<int>, exit: nat,
                 stack': seq<int>, cap: seq<Option<nat>>, k: nat -> seq<nat>, lo: nat, starts: seq<nat>)
    requires From(m, pc, p, stack, mid, stackMid, cap, starts) && Within(m.subject, lo, starts)
    requires Continues(m, mid, stackMid, exit, stack', cap, k, lo)
    ensures From(m, pc, p, stack, exit, stack', cap, Each(k, starts))
  {
    hide Offers, Continues, Within;
    forall base: seq<Frame>
      ensures Offers(m, Run(pc, p, stack, cap, base), exit, stack', cap, base, Each(k, starts))
    {
      EachOffers(m, Run(pc, p, stack, cap, base), mid, stackMid, exit, stack', cap, base, k, lo, starts);
    }
  }

  /** The code from pc to exit does what r means: at every position, with any stack, captures and frames,
      it offers the matches of r in order and leaves the stack and captures as they were. */
  ghost predicate Implements(m: Machine, pc: nat, exit: nat, r: Regex) {
    forall p: nat, stack: seq<int>, cap: seq<Option<nat>> | p <= |m.subject.text| ::
      From(m, pc, p, stack, exit, stack, cap, Matches(r, m.subject, p))
  }

  lemma SeqImplements(m: Machine, pc: nat, mid: nat, exit: nat, a: Regex, b: Regex)
    requires Implements(m, pc, mid, a) && Implements(m, mid, exit, b)
    ensures Implements(m, pc, exit, Seq(a, b))
  {
    hide From, Matches;
    forall p: nat, stack: seq<int>, cap: seq<Option<nat>> | p <= |m.subject.text|
      ensures From(m, pc, p, stack, exit, stack, cap, Matches(Seq(a, b), m.subject, p))
    {
      var starts := Matches(a, m.subject, p);
      EachFrom(m, pc, p, stack, mid, stack, exit, stack, cap, ThenMatch(b, m.subject), p, starts);
      SeqEachIsEach(b, m.subject, p, starts);
      MatchesSeq(a, b, m.subject, p);
    }
  }

  // Single steps.

  /** An instruction that neither branches nor fails. */
  lemma StepFrom(m: Machine, pc: nat, i: Instr, p: nat, stack: seq<int>, pc': nat, p': nat, stack': seq<int>, exit: nat,
                 stackEnd: seq<int>, cap: seq<Option<nat>>, ends: seq<nat>)
    requires p <= |m.subject.text| && Decode(m.code, pc) == Some(i)
    requires Exec(m, i, Run(pc, p, stack, cap, [])) == Run(pc', p', stack', cap, [])
    requires !i.ISplitGotoFirst? && !i.ISplitNextFirst? && !i.ILook?
    requires From(m, pc', p', stack', exit, stackEnd, cap, ends)
    ensures From(m, pc, p, stack, exit, stackEnd, cap, ends)
  {
    hide Offers, Decode, Accepts, Holds;
    forall base: seq<Frame>
      ensures Offers(m, Run(pc, p, stack, cap, base), exit, stackEnd, cap, base, ends)
    {
      var c := Run(pc, p, stack, cap, base);
      assert Exec(m, i, c) == Run(pc', p', stack', cap, base);
      ReachesExec(m, c, i);
      OffersPre(m, c, Run(pc', p', stack', cap, base), exit, stackEnd, cap, base, ends);
    }
  }

  lemma FailFrom(m: Machine, pc: nat, i: Instr, p: nat, stack: seq<int>, exit: nat, stackEnd: seq<int>,
                 cap: seq<Option<nat>>)
    requires p <= |m.subject.text| && Decode(m.code, pc) == Some(i)
    requires Exec(m, i, Run(pc, p, stack, cap, [])) == Fail([])
    ensures From(m, pc, p, stack, exit, stackEnd, cap, [])
  {
    hide Decode, Accepts, Holds;
    forall base: seq<Frame>
      ensures Offers(m, Run(pc, p, stack, cap, base), exit, stackEnd, cap, base, [])
    {
      assert Exec(m, i, Run(pc, p, stack, cap, base)) == Fail(base);
      ReachesExec(m, Run(pc, p, stack, cap, base), i);
    }
  }

  /** Being at the exit offers the position one is at. */
  lemma HereFrom(m: Machine, p: nat, exit: nat, stack: seq<int>, cap: seq<Option<nat>>)
    ensures From(m, exit, p, stack, exit, stack, cap, [p])
  {
    hide Offers;
    forall base: seq<Frame>
      ensures Offers(m, Run(exit, p, stack, cap, base), exit, stack, cap, base, [p])
    {
      ReachesSelf(m, Run(exit, p, stack, cap, base));
      OffersOne(m, Run(exit, p, stack, cap, base), exit, stack, cap, base, p);
    }
  }

  // Branches.

  /** A branch instruction offers what its first choice offers, then what its second does. */
  lemma BranchFrom(m: Machine, pc: nat, i: Instr, p: nat, exit: nat, stack: seq<int>, stack': seq<int>,
                   cap: seq<Option<nat>>, first: seq<nat>, second: seq<nat>)
    requires p <= |m.subject.text| && Decode(m.code, pc) == Some(i) && (i.ISplitGotoFirst? || i.ISplitNextFirst?)
    requires From(m, if i.ISplitGotoFirst? then Jump(pc + 5, i.off) else pc + 5, p, stack, exit, stack', cap, first)
    requires From(m, if i.ISplitGotoFirst? then pc + 5 else Jump(pc + 5, i.off), p, stack, exit, stack', cap, second)
    ensures From(m, pc, p, stack, exit, stack', cap, first + second)
  {
    hide Offers, Decode;
    var go, other := if i.ISplitGotoFirst? then Jump(pc + 5, i.off) else pc + 5,
      if i.ISplitGotoFirst? then pc + 5 else Jump(pc + 5, i.off);
    var f := Frame(Split, 0, p, other, cap, stack);
    forall base: seq<Frame>
      ensures Offers(m, Run(pc, p, stack, cap, base), exit, stack', cap, base, first + second)
    {
      var c := Run(pc, p, stack, cap, base);
      ReachesExec(m, c, i);
      OffersPre(m, c, Run(go, p, stack, cap, [f] + base), exit, stack', cap, [f] + base, first);
      ReachesBacktrack(m, f, base);
      assert ([f] + base)[1..] == base;
      OffersPre(m, Fail([f] + base), Run(other, p, stack, cap, base), exit, stack', cap, base, second);
      OffersAppend(m, c, exit, stack', cap, [f], base, first, second);
    }
  }

  lemma AltImplements(m: Machine, pc: nat, la: nat, lb: nat, a: Regex, b: Regex)
    requires Decode(m.code, pc) == Some(ISplitNextFirst(la + 5))
    requires Implements(m, pc + 5, pc + 5 + la, a)
    requires Decode(m.code, pc + 5 + la) == Some(IGoto(lb))
    requires Implements(m, pc + 10 + la, pc + 10 + la + lb, b)
    ensures Implements(m, pc, pc + 10 + la + lb, Alt(a, b))
  {
    hide From, Decode;
    var mid, exit := pc + 5 + la, pc + 10 + la + lb;
    forall p: nat, stack: seq<int>, cap: seq<Option<nat>> | p <= |m.subject.text|
      ensures From(m, pc, p, stack, exit, stack, cap, Matches(Alt(a, b), m.subject, p))
    {
      var starts := Matches(a, m.subject, p);
      GotoContinues(m, mid, lb, exit, stack, cap);
      EachFrom(m, pc + 5, p, stack, mid, stack, exit, stack, cap, Unit(), p, starts);
      EachUnit(Unit(), starts);
      BranchFrom(m, pc, ISplitNextFirst(la + 5), p, exit, stack, stack, cap, starts, Matches(b, m.subject, p));
    }
  }

  /** Continue with nothing. */
  ghost function Unit(): nat -> seq<nat> {
    (q: nat) => [q]
  }

  lemma GotoContinues(m: Machine, pc: nat, off: int, exit: nat, stack: seq<int>, cap: seq<Option<nat>>)
    requires Decode(m.code, pc) == Some(IGoto(off)) && exit == pc + 5 + off
    ensures Continues(m, pc, stack, exit, stack, cap, Unit(), 0)
  {
    hide From, Decode;
    forall q: nat | q <= |m.subject.text|
      ensures From(m, pc, q, stack, exit, stack, cap, Unit()(q))
    {
      HereFrom(m, q, exit, stack, cap);
      StepFrom(m, pc, IGoto(off), q, stack, exit, q, stack, exit, stack, cap, [q]);
    }
  }

  // Lookaheads.

  lemma LookImplements(m: Machine, pc: nat, la: nat, negated: bool, a: Regex)
    requires Decode(m.code, pc) == Some(ILook(negated, la + 1))
    requires Implements(m, pc + 5, pc + 5 + la, a)
    requires Decode(m.code, pc + 5 + la) == Some(IMatch)
    ensures Implements(m, pc, pc + 6 + la, Look(negated, a))
  {
    hide Decode, From;
    var exit := pc + 6 + la;
    forall p: nat, stack: seq<int>, cap: seq<Option<nat>> | p <= |m.subject.text|
      ensures From(m, pc, p, stack, exit, stack, cap, Matches(Look(negated, a), m.subject, p))
    {
      LookFrom(m, pc, la, negated, p, stack, cap, Matches(a, m.subject, p));
    }
  }

  lemma LookFrom(m: Machine, pc: nat, la: nat, negated: bool, p: nat, stack: seq<int>, cap: seq<Option<nat>>,
                 ends: seq<nat>)
    requires p <= |m.subject.text| && Forward(m.subject, p, ends)
    requires Decode(m.code, pc) == Some(ILook(negated, la + 1)) && Decode(m.code, pc + 5 + la) == Some(IMatch)
    requires From(m, pc + 5, p, stack, pc + 5 + la, stack, cap, ends)
    ensures From(m, pc, p, stack, pc + 6 + la, stack, cap, if (ends != []) != negated then [p] else [])
  {
    hide Decode, Offers;
    forall base: seq<Frame>
      ensures Offers(m, Run(pc, p, stack, cap, base), pc + 6 + la, stack, cap, base,
                     if (ends != []) != negated then [p] else [])
    {
      LookOffers(m, pc, la, negated, p, stack, cap, base, ends);
    }
  }

  lemma LookOffers(m: Machine, pc: nat, la: nat, negated: bool, p: nat, stack: seq<int>, cap: seq<Option<nat>>,
                   base: seq<Frame>, ends: seq<nat>)
    requires p <= |m.subject.text| && Forward(m.subject, p, ends)
    requires Decode(m.code, pc) == Some(ILook(negated, la + 1)) && Decode(m.code, pc + 5 + la) == Some(IMatch)
    requires
      var f := Frame(if negated then LookNegative else LookPositive, 0, p, pc + 6 + la, cap, stack);
      Offers(m, Run(pc + 5, p, stack, cap, [f] + base), pc + 5 + la, stack, cap, [f] + base, ends)
    ensures Offers(m, Run(pc, p, stack, cap, base), pc + 6 + la, stack, cap, base,
                   if (ends != []) != negated then [p] else [])
  {
    hide Decode, Reaches;
    var f := Frame(if negated then LookNegative else LookPositive, 0, p, pc + 6 + la, cap, stack);
    var c, d := Run(pc, p, stack, cap, base), Run(pc + 5, p, stack, cap, [f] + base);
    var exit := Run(pc + 6 + la, p, stack, cap, base);
    ReachesExec(m, c, ILook(negated, la + 1));
    assert ([f] + base)[1..] == base;
    if ends == [] {
      ReachesTrans(m, c, d, Fail([f] + base));
      ReachesBacktrack(m, f, base);
      ReachesTrans(m, c, Fail([f] + base), if negated then exit else Fail(base));
    } else {
      var g :| && Quiet(g)
               && Reaches(m, d, Run(pc + 5 + la, ends[0], stack, cap, g + ([f] + base)))
               && Offers(m, Fail(g + ([f] + base)), pc + 5 + la, stack, cap, [f] + base, ends[1..]);
      var e := Run(pc + 5 + la, ends[0], stack, cap, g + ([f] + base));
      ReachesTrans(m, c, d, e);
      LookSucceeds(m, e, f, g, base);
      ReachesTrans(m, c, e, if negated then Fail(base) else exit);
    }
    if (ends != []) != negated {
      OffersOne(m, c, pc + 6 + la, stack, cap, base, p);
    }
  }

  /** The end of a lookahead drops the frames of its body. */
  lemma LookSucceeds(m: Machine, e: Config, f: Frame, g: seq<Frame>, base: seq<Frame>)
    requires e.Run? && e.cptr <= |m.subject.text| && Decode(m.code, e.pc) == Some(IMatch)
    requires Quiet(g) && e.frames == g + ([f] + base) && (f.kind.LookPositive? || f.kind.LookNegative?)
    ensures Reaches(m, e, if f.kind.LookNegative? then Fail(base) else Run(f.pc, f.cptr, f.stack, e.cap, base))
  {
    hide Decode, Reaches;
    var goal := if f.kind.LookNegative? then Fail(base) else Run(f.pc, f.cptr, f.stack, e.cap, base);
    ReachesExec(m, e, IMatch);
    ReachesUnwind(m, e.cap, g, [f] + base);
    ReachesTrans(m, e, Success(e.cap, g + ([f] + base)), Success(e.cap, [f] + base));
    assert ([f] + base)[1..] == base;
    ReachesSelf(m, goal);
    ReachesStep(m, Success(e.cap, [f] + base), goal);
    ReachesTrans(m, e, Success(e.cap, [f] + base), goal);
  }
}
