/** The unbounded lazy loop. Where a round can stay in place the machine goes round for ever; everywhere else
    the loop means what it should. */
module RegexLazyLoop {
  import opened RegexSyntax
  import opened RegexCode
  import opened RegexEmit
  import opened RegexVm
  import opened RegexOffers
  import opened RegexPaths
  import opened RegexBlocks
  import opened RegexLoops
  import opened RegexCorrect
  import opened RegexUnchecked

  /** A branch that prefers the exit over the body. */
  ghost predicate LeavesFirst(m: Machine, head: nat, body: nat, exit: nat) {
    var i := Decode(m.code, head);
    || (i.Some? && i.value.ISplitGotoFirst? && Jump(head + 5, i.value.off) == exit && head + 5 == body)
    || (i.Some? && i.value.ISplitNextFirst? && head + 5 == exit && Jump(head + 5, i.value.off) == body)
  }

  /** The loop: the branch at head, the body up to tail, and the way back. */
  ghost predicate LazyLoop(m: Machine, head: nat, body: nat, tail: nat, exit: nat, a: Regex) {
    && LeavesFirst(m, head, body, exit) && Implements(m, body, tail, a)
    && (tail == head || (Decode(m.code, tail).Some? && Decode(m.code, tail).value.IGoto?
                         && Jump(tail + 5, Decode(m.code, tail).value.off) == head))
  }

  lemma Back(m: Machine, head: nat, body: nat, tail: nat, exit: nat, a: Regex, q: nat, stack: seq<int>,
             cap: seq<Option<nat>>, frames: seq<Frame>)
    requires LazyLoop(m, head, body, tail, exit, a) && q <= |m.subject.text|
    ensures Reaches(m, Run(tail, q, stack, cap, frames), Run(head, q, stack, cap, frames))
  {
    hide Decode, Reaches, Implements;
    if tail == head {
      ReachesSelf(m, Run(head, q, stack, cap, frames));
    } else {
      ReachesExec(m, Run(tail, q, stack, cap, frames), Decode(m.code, tail).value);
    }
  }

  function Waiting(q: nat, body: nat, stack: seq<int>, cap: seq<Option<nat>>): Frame {
    Frame(Split, 0, q, body, cap, stack)
  }

  lemma Leaves(m: Machine, head: nat, body: nat, exit: nat, q: nat, stack: seq<int>, cap: seq<Option<nat>>,
               frames: seq<Frame>)
    requires LeavesFirst(m, head, body, exit) && q <= |m.subject.text|
    ensures Reaches(m, Run(head, q, stack, cap, frames),
                    Run(exit, q, stack, cap, [Waiting(q, body, stack, cap)] + frames))
    ensures Reaches(m, Fail([Waiting(q, body, stack, cap)] + frames), Run(body, q, stack, cap, frames))
  {
    hide Decode, Reaches;
    ReachesExec(m, Run(head, q, stack, cap, frames), Decode(m.code, head).value);
    ReachesBacktrack(m, Waiting(q, body, stack, cap), frames);
    assert ([Waiting(q, body, stack, cap)] + frames)[1..] == frames;
  }

  /** No round from p on can stay in place. */
  ghost predicate NeverEmptyFrom(a: Regex, s: Subject, p: nat) {
    forall q: nat | p <= q <= |s.text| :: q !in Matches(a, s, q)
  }

  lemma StartsBeyond(a: Regex, s: Subject, p: nat)
    requires p <= |s.text| && p !in Matches(a, s, p)
    ensures Within(s, p + 1, Matches(a, s, p))
  {}

  /** Where rounds advance, the loop offers the repetition of the standard. */
  lemma {:induction false} LazyLoopFrom(m: Machine, head: nat, body: nat, tail: nat, exit: nat, a: Regex, p: nat,
                                        stack: seq<int>, cap: seq<Option<nat>>)
    requires LazyLoop(m, head, body, tail, exit, a) && p <= |m.subject.text| && NeverEmptyFrom(a, m.subject, p)
    ensures From(m, head, p, stack, exit, stack, cap, Rep(a, 0, INF, false, m.subject, p))
    decreases |m.subject.text| - p
  {
    hide From, Decode, Matches;
    var k, starts := ThenRound(a, 0, INF, false, m.subject, p), Matches(a, m.subject, p);
    forall q: nat | p + 1 <= q <= |m.subject.text|
      ensures From(m, tail, q, stack, exit, stack, cap, k(q))
    {
      LazyLoopFrom(m, head, body, tail, exit, a, q, stack, cap);
      OptionalRound(a, INF, false, m.subject, p, q);
      BackFrom(m, head, body, tail, exit, a, q, stack, cap, k(q));
    }
    StartsBeyond(a, m.subject, p);
    assert From(m, body, p, stack, tail, stack, cap, starts);
    EachFrom(m, body, p, stack, tail, stack, exit, stack, cap, k, p + 1, starts);
    HereFrom(m, p, exit, stack, cap);
    BranchFrom(m, head, Decode(m.code, head).value, p, exit, stack, stack, cap, [p], Each(k, starts));
    RepUnfold(a, 0, INF, false, m.subject, p);
  }

  lemma BackFrom(m: Machine, head: nat, body: nat, tail: nat, exit: nat, a: Regex, q: nat, stack: seq<int>,
                 cap: seq<Option<nat>>, ends: seq<nat>)
    requires LazyLoop(m, head, body, tail, exit, a) && q <= |m.subject.text|
    requires From(m, head, q, stack, exit, stack, cap, ends)
    ensures From(m, tail, q, stack, exit, stack, cap, ends)
  {
    hide Offers, Reaches, LazyLoop;
    forall base: seq<Frame>
      ensures Offers(m, Run(tail, q, stack, cap, base), exit, stack, cap, base, ends)
    {
      Back(m, head, body, tail, exit, a, q, stack, cap, base);
      OffersPre(m, Run(tail, q, stack, cap, base), Run(head, q, stack, cap, base), exit, stack, cap, base, ends);
    }
  }

  /** p is the last position where a round can stay in place. */
  ghost predicate LastEmpty(a: Regex, s: Subject, p: nat) {
    p <= |s.text| && p in Matches(a, s, p) && NeverEmptyFrom(a, s, p + 1)
  }

  lemma {:induction false} LastEmptyExists(a: Regex, s: Subject, p: nat) returns (q: nat)
    requires p <= |s.text| && p in Matches(a, s, p)
    ensures LastEmpty(a, s, q)
    decreases |s.text| - p
  {
    hide Matches;
    if q' :| p < q' <= |s.text| && q' in Matches(a, s, q') {
      q := LastEmptyExists(a, s, q');
    } else {
      q := p;
    }
  }

  /** At the head of the loop at such a position no finite list is ever offered: one more round is always
      left. */
  lemma {:induction false} NoList(m: Machine, head: nat, body: nat, tail: nat, exit: nat, a: Regex, p: nat,
                                  stack: seq<int>, cap: seq<Option<nat>>, frames: seq<Frame>, ends: seq<nat>)
    requires LazyLoop(m, head, body, tail, exit, a) && LastEmpty(a, m.subject, p) && Decode(m.code, exit) == None
    requires Offers(m, Run(head, p, stack, cap, frames), exit, stack, cap, [], ends)
    ensures false
    decreases |ends|, 0
  {
    hide Offers, Decode, Reaches, Matches, LeavesFirst;
    var f := Waiting(p, body, stack, cap);
    Leaves(m, head, body, exit, p, stack, cap, frames);
    Along(m, Run(head, p, stack, cap, frames), Run(exit, p, stack, cap, [f] + frames), exit, stack, cap, ends);
    AtExit(m, exit, p, stack, cap, [f] + frames, ends);
    Along(m, Fail([f] + frames), Run(body, p, stack, cap, frames), exit, stack, cap, ends[1..]);
    assert From(m, body, p, stack, tail, stack, cap, Matches(a, m.subject, p));
    NoListAfter(m, head, body, tail, exit, a, tail, p, stack, cap, Run(body, p, stack, cap, frames), frames,
                Matches(a, m.subject, p), ends[1..]);
  }

  /** The same once the outcomes of a round are given: those beyond p are used up, then p comes round again. */
  lemma {:induction false} NoListAfter(m: Machine, head: nat, body: nat, tail: nat, exit: nat, a: Regex, at: nat,
                                       p: nat, stack: seq<int>, cap: seq<Option<nat>>, c: Config, frames: seq<Frame>,
                                           starts: seq<nat>,
                                       ends: seq<nat>)
    requires LazyLoop(m, head, body, tail, exit, a) && LastEmpty(a, m.subject, p) && Decode(m.code, exit) == None
    requires (at == tail || at == head) && p in starts && Forward(m.subject, p, starts)
    requires Offers(m, c, at, stack, cap, frames, starts) && Offers(m, c, exit, stack, cap, [], ends)
    ensures false
    decreases |ends|, 1, |starts|
  {
    hide Decode, Reaches, Matches, LazyLoop, Rep;
    var q := starts[0];
    var g :| && Quiet(g)
             && Reaches(m, c, Run(at, q, stack, cap, g + frames))
             && Offers(m, Fail(g + frames), at, stack, cap, frames, starts[1..]);
    hide Offers;
    var d := Run(head, q, stack, cap, g + frames);
    ToHead(m, head, body, tail, exit, a, at, q, stack, cap, g + frames);
    ReachesTrans(m, c, Run(at, q, stack, cap, g + frames), d);
    Along(m, c, d, exit, stack, cap, ends);
    if q == p {
      NoList(m, head, body, tail, exit, a, p, stack, cap, g + frames, ends);
    } else {
      LazyLoopFrom(m, head, body, tail, exit, a, q, stack, cap);
      var first := Rep(a, 0, INF, false, m.subject, q);
      Consume(m, d, exit, stack, cap, g + frames, first, ends);
      NoListAfter(m, head, body, tail, exit, a, at, p, stack, cap, Fail(g + frames), frames, starts[1..],
                  ends[|first|..]);
    }
  }

  lemma ToHead(m: Machine, head: nat, body: nat, tail: nat, exit: nat, a: Regex, at: nat, q: nat, stack: seq<int>,
               cap: seq<Option<nat>>, frames: seq<Frame>)
    requires LazyLoop(m, head, body, tail, exit, a) && q <= |m.subject.text| && (at == tail || at == head)
    ensures Reaches(m, Run(at, q, stack, cap, frames), Run(head, q, stack, cap, frames))
  {
    hide Reaches, LazyLoop;
    Back(m, head, body, tail, exit, a, q, stack, cap, frames);
    ReachesSelf(m, Run(head, q, stack, cap, frames));
  }

  // The emitted forms.

  lemma StarLoop(m: Machine, pc: nat, a: Regex)
    requires WellFormed(a) && Realizes(m, a) && At(m.code, pc, StarCode(Emit(a), false))
    ensures LazyLoop(m, pc, pc + 5, pc + 5 + Length(Emit(a)), pc + Length(StarCode(Emit(a), false)), a)
  {
    hide At, Decode, Emit, Length, Implements;
    StarLayout(m.code, pc, Emit(a), false);
  }

  lemma PlusLoop(m: Machine, pc: nat, a: Regex)
    requires WellFormed(a) && Realizes(m, a) && At(m.code, pc, PlusCode(Emit(a), false))
    ensures LazyLoop(m, pc + Length(Emit(a)), pc, pc + Length(Emit(a)), pc + Length(PlusCode(Emit(a), false)), a)
  {
    hide At, Decode, Emit, Length, Implements;
    TailLayout(m.code, pc, Emit(a), Branch(true, -(Length(Emit(a)) + 5)));
  }

  /** The code of an unbounded lazy repetition standing at the end of the code, started where a round can
      stay in place, offers no finite list. */
  lemma UnboundedOffersNothing(m: Machine, pc: nat, a: Regex, min: nat, p: nat, stack: seq<int>, cap: seq<Option<nat>>,
                               ends: seq<nat>)
    requires WellFormed(a) && Realizes(m, a) && min <= INF && LastEmpty(a, m.subject, p)
    requires At(m.code, pc, QuantCode(Emit(a), min, INF, false))
    requires Decode(m.code, pc + Length(QuantCode(Emit(a), min, INF, false))) == None
    ensures !Offers(m, Run(pc, p, stack, cap, []), pc + Length(QuantCode(Emit(a), min, INF, false)), stack, cap, [],
                    ends)
  {
    hide At, Decode, Emit, Length, Offers, Realizes, LastEmpty, MandatoryCode, StarCode, PlusCode, OptCode, GreedyCode,
        SimpleCount,
      NeedCheck;
    if min == 0 {
      StarOffersNothing(m, pc, a, p, stack, cap, ends);
    } else if min == 1 {
      PlusOffersNothing(m, pc, a, p, stack, cap, ends);
    } else {
      MandatoryOffersNothing(m, pc, a, min, p, stack, cap, ends);
    }
  }

  lemma StarOffersNothing(m: Machine, pc: nat, a: Regex, p: nat, stack: seq<int>, cap: seq<Option<nat>>, ends: seq<nat>)
    requires WellFormed(a) && Realizes(m, a) && LastEmpty(a, m.subject, p) && At(m.code, pc, StarCode(Emit(a), false))
    requires Decode(m.code, pc + Length(StarCode(Emit(a), false))) == None
    ensures !Offers(m, Run(pc, p, stack, cap, []), pc + Length(StarCode(Emit(a), false)), stack, cap, [], ends)
  {
    hide At, Decode, Emit, Length, Offers, Realizes, LastEmpty, StarCode, LazyLoop;
    StarLoop(m, pc, a);
    var exit := pc + Length(StarCode(Emit(a), false));
    if Offers(m, Run(pc, p, stack, cap, []), exit, stack, cap, [], ends) {
      NoList(m, pc, pc + 5, pc + 5 + Length(Emit(a)), exit, a, p, stack, cap, [], ends);
    }
  }

  lemma PlusOffersNothing(m: Machine, pc: nat, a: Regex, p: nat, stack: seq<int>, cap: seq<Option<nat>>, ends: seq<nat>)
    requires WellFormed(a) && Realizes(m, a) && LastEmpty(a, m.subject, p) && At(m.code, pc, PlusCode(Emit(a), false))
    requires Decode(m.code, pc + Length(PlusCode(Emit(a), false))) == None
    ensures !Offers(m, Run(pc, p, stack, cap, []), pc + Length(PlusCode(Emit(a), false)), stack, cap, [], ends)
  {
    hide At, Decode, Emit, Length, Offers, Realizes, PlusCode, LazyLoop, Matches, NeverEmptyFrom;
    PlusLoop(m, pc, a);
    PlusHead(m, pc, a);
    var head, exit := pc + Length(Emit(a)), pc + Length(PlusCode(Emit(a), false));
    assert From(m, pc, p, stack, head, stack, cap, Matches(a, m.subject, p));
    if Offers(m, Run(pc, p, stack, cap, []), exit, stack, cap, [], ends) {
      NoListAfter(m, head, pc, head, exit, a, head, p, stack, cap, Run(pc, p, stack, cap, []), [],
                  Matches(a, m.subject, p), ends);
    }
  }

  lemma MandatoryOffersNothing(m: Machine, pc: nat, a: Regex, min: nat, p: nat, stack: seq<int>, cap: seq<Option<nat>>,
                               ends: seq<nat>)
    requires WellFormed(a) && Realizes(m, a) && LastEmpty(a, m.subject, p) && min > 0
    requires At(m.code, pc, MandatoryCode(Emit(a), min) + StarCode(Emit(a), false))
    requires Decode(m.code, pc + Length(MandatoryCode(Emit(a), min) + StarCode(Emit(a), false))) == None
    ensures !Offers(m, Run(pc, p, stack, cap, []), pc + Length(MandatoryCode(Emit(a), min) + StarCode(Emit(a), false)),
                    stack, cap, [], ends)
  {
    hide At, Decode, Emit, Length, Offers, Realizes, StarCode, MandatoryCode, LazyLoop, Matches, NeverEmptyFrom, Times;
    var first, star := MandatoryCode(Emit(a), min), StarCode(Emit(a), false);
    AtAppend(m.code, pc, first, star);
    var head, exit := pc + Length(first), pc + Length(first + star);
    MandatoryCodeFrom(m, pc, a, min, p, stack, cap);
    StarLoop(m, head, a);
    TimesForward(a, min, m.subject, p);
    TimesStays(a, min, m.subject, p);
    if Offers(m, Run(pc, p, stack, cap, []), exit, stack, cap, [], ends) {
      NoListAfter(m, head, head + 5, head + 5 + Length(Emit(a)), exit, a, head, p, stack, cap,
                  Run(pc, p, stack, cap, []), [], Times(a, min, m.subject, p), ends);
    }
  }

  lemma PlusHead(m: Machine, pc: nat, a: Regex)
    requires WellFormed(a) && Realizes(m, a) && At(m.code, pc, PlusCode(Emit(a), false))
    ensures Implements(m, pc, pc + Length(Emit(a)), a)
  {
    hide At, Decode, Emit, Length, Implements;
    TailLayout(m.code, pc, Emit(a), Branch(true, -(Length(Emit(a)) + 5)));
  }
}
