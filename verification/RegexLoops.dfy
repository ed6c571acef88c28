/** The loops of the emitted code offer what RepeatMatcher of ECMA-262 prescribes. */
module RegexLoops {
  import opened RegexSyntax
  import opened RegexCode
  import opened RegexEmit
  import opened RegexVm
  import opened RegexScan
  import opened RegexBlocks

  ghost predicate Advances(a: Regex, s: Subject) {
    forall p: nat | p <= |s.text| :: AtLeast(p, 1, Matches(a, s, p))
  }

  /** The code from pc to end runs one optional round of a: with the position check, or without it when a
      always advances. */
  ghost predicate Guards(m: Machine, pc: nat, end: nat, check: bool, a: Regex) {
    if check then
      && Decode(m.code, pc) == Some(IPushPos) && pc + 1 < end
      && Implements(m, pc + 1, end - 1, a) && Decode(m.code, end - 1) == Some(ICheckAdvance)
    else Implements(m, pc, end, a) && Advances(a, m.subject)
  }

  /** One round from p: the outcomes that stay at p are refused, the others continue. */
  lemma RoundFrom(m: Machine, pc: nat, end: nat, check: bool, a: Regex, p: nat, stack: seq<int>, exit: nat,
                  stack': seq<int>, cap: seq<Option<nat>>, k: nat -> seq<nat>)
    requires Guards(m, pc, end, check, a) && p <= |m.subject.text| && k(p) == []
    requires Continues(m, end, stack, exit, stack', cap, k, p + 1)
    ensures From(m, pc, p, stack, exit, stack', cap, Each(k, Matches(a, m.subject, p)))
  {
    hide From, Decode, Matches;
    var starts := Matches(a, m.subject, p);
    if check {
      assert From(m, pc + 1, p, stack + [p], end - 1, stack + [p], cap, starts);
      CheckContinues(m, end - 1, p, stack, exit, stack', cap, k);
      EachFrom(m, pc + 1, p, stack + [p], end - 1, stack + [p], exit, stack', cap, k, p, starts);
      StepFrom(m, pc, IPushPos, p, stack, pc + 1, p, stack + [p], exit, stack', cap, Each(k, starts));
    } else {
      assert From(m, pc, p, stack, end, stack, cap, starts);
      assert AtLeast(p, 1, starts);
      EachFrom(m, pc, p, stack, end, stack, exit, stack', cap, k, p + 1, starts);
    }
  }

  lemma CheckContinues(m: Machine, pc: nat, p: nat, stack: seq<int>, exit: nat, stack': seq<int>, cap: seq<Option<nat>>,
                       k: nat -> seq<nat>)
    requires Decode(m.code, pc) == Some(ICheckAdvance) && p <= |m.subject.text| && k(p) == []
    requires Continues(m, pc + 1, stack, exit, stack', cap, k, p + 1)
    ensures Continues(m, pc, stack + [p], exit, stack', cap, k, p)
  {
    hide From, Decode;
    forall q: nat | p <= q <= |m.subject.text|
      ensures From(m, pc, q, stack + [p], exit, stack', cap, k(q))
    {
      if q == p {
        FailFrom(m, pc, ICheckAdvance, q, stack + [p], exit, stack', cap);
      } else {
        assert (stack + [p])[..|stack|] == stack;
        StepFrom(m, pc, ICheckAdvance, q, stack + [p], pc + 1, q, stack, exit, stack', cap, k(q));
      }
    }
  }

  // Zero or more, and at most one.

  /** The two ways of an optional round, in the order of preference. */
  lemma OptionalFrom(m: Machine, pc: nat, greedy: bool, off: nat, p: nat, exit: nat, stack: seq<int>, stack': seq<int>,
                     cap: seq<Option<nat>>, rounds: seq<nat>)
    requires p <= |m.subject.text| && Decode(m.code, pc) == Some(Branch(greedy, off))
    requires From(m, pc + 5, p, stack, exit, stack', cap, rounds)
    requires From(m, pc + 5 + off, p, stack, exit, stack', cap, [p])
    ensures From(m, pc, p, stack, exit, stack', cap, if greedy then rounds + [p] else [p] + rounds)
  {
    hide From, Decode;
    BranchFrom(m, pc, Branch(greedy, off), p, exit, stack, stack', cap, if greedy then rounds else [p],
               if greedy then [p] else rounds);
  }

  ghost predicate StarAt(m: Machine, pc: nat, end: nat, check: bool, greedy: bool, a: Regex) {
    && end >= pc + 5
    && Decode(m.code, pc) == Some(Branch(greedy, end - pc))
    && Guards(m, pc + 5, end, check, a)
    && Decode(m.code, end) == Some(IGoto(pc - (end + 5)))
  }

  lemma {:induction false} StarFrom(m: Machine, pc: nat, end: nat, check: bool, greedy: bool, a: Regex, p: nat,
                                    stack: seq<int>, cap: seq<Option<nat>>)
    requires StarAt(m, pc, end, check, greedy, a) && p <= |m.subject.text|
    ensures From(m, pc, p, stack, end + 5, stack, cap, Rep(a, 0, INF, greedy, m.subject, p))
    decreases |m.subject.text| - p
  {
    hide From, Decode, Matches, Guards;
    var k := ThenRound(a, 0, INF, greedy, m.subject, p);
    forall q: nat | p + 1 <= q <= |m.subject.text|
      ensures From(m, end, q, stack, end + 5, stack, cap, k(q))
    {
      StarFrom(m, pc, end, check, greedy, a, q, stack, cap);
      OptionalRound(a, INF, greedy, m.subject, p, q);
      StepFrom(m, end, IGoto(pc - (end + 5)), q, stack, pc, q, stack, end + 5, stack, cap, k(q));
    }
    RoundFrom(m, pc + 5, end, check, a, p, stack, end + 5, stack, cap, k);
    HereFrom(m, p, end + 5, stack, cap);
    OptionalFrom(m, pc, greedy, end - pc, p, end + 5, stack, stack, cap, Each(k, Matches(a, m.subject, p)));
    RepUnfold(a, 0, INF, greedy, m.subject, p);
  }

  ghost predicate OptAt(m: Machine, pc: nat, end: nat, check: bool, greedy: bool, a: Regex) {
    && end >= pc + 5
    && Decode(m.code, pc) == Some(Branch(greedy, end - pc - 5))
    && Guards(m, pc + 5, end, check, a)
  }

  lemma OptFrom(m: Machine, pc: nat, end: nat, check: bool, greedy: bool, a: Regex, p: nat, stack: seq<int>,
                cap: seq<Option<nat>>)
    requires OptAt(m, pc, end, check, greedy, a) && p <= |m.subject.text|
    ensures From(m, pc, p, stack, end, stack, cap, Rep(a, 0, 1, greedy, m.subject, p))
  {
    hide From, Decode, Matches, Guards;
    var k := ThenRound(a, 0, 1, greedy, m.subject, p);
    forall q: nat | p + 1 <= q <= |m.subject.text|
      ensures From(m, end, q, stack, end, stack, cap, k(q))
    {
      OptionalRound(a, 1, greedy, m.subject, p, q);
      HereFrom(m, q, end, stack, cap);
    }
    RoundFrom(m, pc + 5, end, check, a, p, stack, end, stack, cap, k);
    HereFrom(m, p, end, stack, cap);
    OptionalFrom(m, pc, greedy, end - pc - 5, p, end, stack, stack, cap, Each(k, Matches(a, m.subject, p)));
    RepUnfold(a, 0, 1, greedy, m.subject, p);
  }

  // Counted loops.

  /** A counted loop whose end stands at end: loop instruction, then drop. */
  ghost predicate CountAt(m: Machine, pc: nat, end: nat, check: bool, greedy: bool, a: Regex) {
    && end >= pc + 5
    && Decode(m.code, pc) == Some(Branch(greedy, end - pc))
    && Guards(m, pc + 5, end, check, a)
    && LoopAt(m, end, pc)
  }

  /** A loop instruction at end that jumps back to pc, and the drop of its counter. */
  ghost predicate LoopAt(m: Machine, end: nat, pc: nat) {
    && Decode(m.code, end) == Some(ILoop(pc - (end + 5)))
    && Decode(m.code, end + 5) == Some(IDrop)
  }

  lemma LoopDrops(m: Machine, end: nat, pc: nat)
    requires LoopAt(m, end, pc)
    ensures Decode(m.code, end + 5) == Some(IDrop)
  {}

  lemma DropFrom(m: Machine, pc: nat, q: nat, stack: seq<int>, v: int, cap: seq<Option<nat>>)
    requires Decode(m.code, pc) == Some(IDrop) && q <= |m.subject.text|
    ensures From(m, pc, q, stack + [v], pc + 1, stack, cap, [q])
  {
    hide From, Decode;
    assert (stack + [v])[..|stack|] == stack;
    HereFrom(m, q, pc + 1, stack, cap);
    StepFrom(m, pc, IDrop, q, stack + [v], pc + 1, q, stack, pc + 1, stack, cap, [q]);
  }

  /** The loop instruction goes round again, or leaves the loop on the last round. */
  lemma LoopFrom(m: Machine, end: nat, pc: nat, q: nat, stack: seq<int>, v: int, cap: seq<Option<nat>>, ends: seq<nat>)
    requires LoopAt(m, end, pc) && q <= |m.subject.text|
    requires if v == 1 then ends == [q] else From(m, pc, q, stack + [v - 1], end + 6, stack, cap, ends)
    ensures From(m, end, q, stack + [v], end + 6, stack, cap, ends)
  {
    hide From, Decode;
    assert (stack + [v])[..|stack|] == stack;
    if v == 1 {
      DropFrom(m, end + 5, q, stack, 0, cap);
      StepFrom(m, end, ILoop(pc - (end + 5)), q, stack + [v], end + 5, q, stack + [0], end + 6, stack, cap, ends);
    } else {
      StepFrom(m, end, ILoop(pc - (end + 5)), q, stack + [v], pc, q, stack + [v - 1], end + 6, stack, cap, ends);
    }
  }

  lemma {:induction false} CountFrom(m: Machine, pc: nat, end: nat, check: bool, greedy: bool, a: Regex, max: nat,
                                     p: nat, stack: seq<int>, cap: seq<Option<nat>>)
    requires CountAt(m, pc, end, check, greedy, a) && p <= |m.subject.text| && 0 < max < INF
    ensures From(m, pc, p, stack + [max], end + 6, stack, cap, Rep(a, 0, max, greedy, m.subject, p))
    decreases max
  {
    hide From, Decode, Matches, Guards, LoopAt;
    var k := ThenRound(a, 0, max, greedy, m.subject, p);
    forall q: nat | p + 1 <= q <= |m.subject.text|
      ensures From(m, end, q, stack + [max], end + 6, stack, cap, k(q))
    {
      OptionalRound(a, max, greedy, m.subject, p, q);
      if max > 1 {
        CountFrom(m, pc, end, check, greedy, a, max - 1, q, stack, cap);
      }
      LoopFrom(m, end, pc, q, stack, max, cap, k(q));
    }
    RoundFrom(m, pc + 5, end, check, a, p, stack + [max], end + 6, stack, cap, k);
    LoopDrops(m, end, pc);
    DropFrom(m, end + 5, p, stack, max, cap);
    OptionalFrom(m, pc, greedy, end - pc, p, end + 6, stack + [max], stack, cap, Each(k, Matches(a, m.subject, p)));
    RepUnfold(a, 0, max, greedy, m.subject, p);
  }

  // Mandatory rounds.

  /** Exactly n rounds of a. */
  ghost function Times(a: Regex, n: nat, s: Subject, p: nat): (ends: seq<nat>)
    requires p <= |s.text|
    decreases n
  {
    if n == 0 then [p] else Each((q: nat) => if q <= |s.text| then Times(a, n - 1, s, q) else [], Matches(a, s, p))
  }

  ghost function ThenTimes(a: Regex, n: nat, s: Subject): nat -> seq<nat> {
    (q: nat) => if q <= |s.text| then Times(a, n, s, q) else []
  }

  lemma TimesUnfold(a: Regex, n: nat, s: Subject, p: nat)
    requires p <= |s.text| && n > 0
    ensures Times(a, n, s, p) == Each(ThenTimes(a, n - 1, s), Matches(a, s, p))
  {
    EachSame((q: nat) => if q <= |s.text| then Times(a, n - 1, s, q) else [], ThenTimes(a, n - 1, s), Matches(a, s, p));
  }

  lemma {:induction false} TimesForward(a: Regex, n: nat, s: Subject, p: nat)
    requires p <= |s.text|
    ensures Forward(s, p, Times(a, n, s, p))
    decreases n
  {
    hide Matches;
    if n > 0 {
      TimesUnfold(a, n, s, p);
      var k := ThenTimes(a, n - 1, s);
      forall q | p <= q <= |s.text|
        ensures Forward(s, q, k(q))
      {
        TimesForward(a, n - 1, s, q);
      }
      EachForward(k, s, p, Matches(a, s, p));
    }
  }

  lemma {:induction false} EachForward(k: nat -> seq<nat>, s: Subject, p: nat, starts: seq<nat>)
    requires p <= |s.text| && Forward(s, p, starts)
    requires forall q | p <= q <= |s.text| :: Forward(s, q, k(q))
    ensures Forward(s, p, Each(k, starts))
  {
    if starts != [] {
      EachForward(k, s, p, starts[1..]);
      assert Forward(s, starts[0], k(starts[0]));
    }
  }

  lemma TimesOnce(a: Regex, s: Subject, p: nat)
    requires p <= |s.text|
    ensures Times(a, 1, s, p) == Matches(a, s, p)
  {
    TimesUnfold(a, 1, s, p);
    EachUnit(ThenTimes(a, 0, s), Matches(a, s, p));
  }

  lemma {:induction false} MandatoryFrom(m: Machine, pc: nat, end: nat, a: Regex, n: nat, p: nat, stack: seq<int>,
                                         cap: seq<Option<nat>>)
    requires Implements(m, pc, end, a) && LoopAt(m, end, pc) && p <= |m.subject.text| && n > 0
    ensures From(m, pc, p, stack + [n], end + 6, stack, cap, Times(a, n, m.subject, p))
    decreases n
  {
    hide From, LoopAt, Matches;
    var k := ThenTimes(a, n - 1, m.subject);
    forall q: nat | p <= q <= |m.subject.text|
      ensures From(m, end, q, stack + [n], end + 6, stack, cap, k(q))
    {
      if n > 1 {
        MandatoryFrom(m, pc, end, a, n - 1, q, stack, cap);
      }
      LoopFrom(m, end, pc, q, stack, n, cap, k(q));
    }
    assert From(m, pc, p, stack + [n], end, stack + [n], cap, Matches(a, m.subject, p));
    EachFrom(m, pc, p, stack + [n], end, stack + [n], end + 6, stack, cap, k, p, Matches(a, m.subject, p));
    TimesUnfold(a, n, m.subject, p);
  }

  /** What is left of a maximum after the mandatory rounds. */
  function Left(min: nat, max: nat): nat
    requires min <= max
  {
    if max == INF then INF else max - min
  }

  /** A repetition is its mandatory rounds followed by the optional ones. */
  lemma {:induction false} RepSplit(a: Regex, min: nat, max: nat, greedy: bool, s: Subject, p: nat)
    requires p <= |s.text| && min <= max <= INF
    ensures Rep(a, min, max, greedy, s, p) == Each(ThenRep(a, 0, Left(min, max), greedy, s), Times(a, min, s, p))
    decreases min
  {
    hide Rep, Matches;
    var k := ThenRep(a, 0, Left(min, max), greedy, s);
    if min == 0 {
      assert [p][1..] == [];
      assert k(p) + [] == k(p);
    } else {
      var starts := Matches(a, s, p);
      var j, jk := ThenTimes(a, min - 1, s), ThenRound(a, min, max, greedy, s, p);
      forall i | 0 <= i < |starts|
        ensures jk(starts[i]) == Each(k, j(starts[i]))
      {
        if min <= Decrement(max) + 1 {
          RepSplitStep(a, min, max, greedy, s, starts[i]);
        }
      }
      EachEach(j, k, jk, starts);
      RepUnfold(a, min, max, greedy, s, p);
      TimesUnfold(a, min, s, p);
    }
  }

  lemma {:induction false} RepSplitStep(a: Regex, min: nat, max: nat, greedy: bool, s: Subject, q: nat)
    requires q <= |s.text| && 0 < min <= max <= INF
    ensures Rep(a, min - 1, Decrement(max), greedy, s, q)
         == Each(ThenRep(a, 0, Left(min, max), greedy, s), Times(a, min - 1, s, q))
    decreases min, 0
  {
    hide Rep, Matches;
    if max == INF && min == INF {
      RepSplit(a, min - 1, INF, greedy, s, q);
    } else {
      RepSplit(a, min - 1, Decrement(max), greedy, s, q);
      assert Left(min - 1, Decrement(max)) == Left(min, max);
    }
  }

  /** One or more rounds of an atom that always advances, with the branch after the body. */
  lemma {:induction false} PlusContinues(m: Machine, pc: nat, end: nat, greedy: bool, a: Regex, q: nat, stack: seq<int>,
                                         cap: seq<Option<nat>>)
    requires Implements(m, pc, end, a) && Advances(a, m.subject)
    requires Decode(m.code, end) == Some(Branch(!greedy, pc - (end + 5))) && q <= |m.subject.text|
    ensures From(m, end, q, stack, end + 5, stack, cap, Rep(a, 0, INF, greedy, m.subject, q))
    decreases |m.subject.text| - q
  {
    hide From, Decode, Matches;
    var k := ThenRound(a, 0, INF, greedy, m.subject, q);
    forall q': nat | q + 1 <= q' <= |m.subject.text|
      ensures From(m, end, q', stack, end + 5, stack, cap, k(q'))
    {
      OptionalRound(a, INF, greedy, m.subject, q, q');
      PlusContinues(m, pc, end, greedy, a, q', stack, cap);
    }
    var rounds := Each(k, Matches(a, m.subject, q));
    RoundFrom(m, pc, end, false, a, q, stack, end + 5, stack, cap, k);
    HereFrom(m, q, end + 5, stack, cap);
    BranchFrom(m, end, Branch(!greedy, pc - (end + 5)), q, end + 5, stack, stack, cap, if greedy then rounds else [q],
               if greedy then [q] else rounds);
    RepUnfold(a, 0, INF, greedy, m.subject, q);
  }

  lemma PlusFrom(m: Machine, pc: nat, end: nat, greedy: bool, a: Regex, p: nat, stack: seq<int>, cap: seq<Option<nat>>)
    requires Implements(m, pc, end, a) && Advances(a, m.subject)
    requires Decode(m.code, end) == Some(Branch(!greedy, pc - (end + 5))) && p <= |m.subject.text|
    ensures From(m, pc, p, stack, end + 5, stack, cap, Rep(a, 1, INF, greedy, m.subject, p))
  {
    hide From, Decode, Matches;
    var k := ThenRep(a, 0, INF, greedy, m.subject);
    forall q: nat | p <= q <= |m.subject.text|
      ensures From(m, end, q, stack, end + 5, stack, cap, k(q))
    {
      PlusContinues(m, pc, end, greedy, a, q, stack, cap);
    }
    var starts := Matches(a, m.subject, p);
    EachFrom(m, pc, p, stack, end, stack, end + 5, stack, cap, k, p, starts);
    RepSplit(a, 1, INF, greedy, m.subject, p);
    TimesOnce(a, m.subject, p);
  }
}
