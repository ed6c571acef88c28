/** The fast path for greedy repetitions of simple atoms: one instruction runs the body as often as it can
    and leaves a single frame that is shortened by one round on every failure. It offers the same positions
    in the same order as the ordinary loop. */
module RegexGreedy {
  import opened RegexSyntax
  import opened RegexCode
  import opened RegexVm
  import opened RegexOffers
  import opened RegexBlocks

  /** The characters t rounds of width w consume. */
  ghost function Span(t: nat, w: nat): nat {
    if t == 0 then 0 else Span(t - 1, w) + w
  }

  /** p, p - w, ..., p - k * w: longest repetition first. */
  ghost function Down(p: nat, k: nat, w: nat): seq<nat>
    decreases k
  {
    if k == 0 || p < w then [p] else [p] + Down(p - w, k - 1, w)
  }

  /** The atom matches in at most one way, and then consumes w > 0 characters. */
  ghost predicate FixedWidth(a: Regex, s: Subject, w: nat) {
    w > 0 && forall p: nat | p <= |s.text| :: Matches(a, s, p) == [] || Matches(a, s, p) == [p + w]
  }

  /** How many rounds of the atom fit from p on, up to max. */
  ghost function Rounds(a: Regex, s: Subject, w: nat, max: nat, p: nat): (t: nat)
    requires p <= |s.text| && FixedWidth(a, s, w)
    ensures p + Span(t, w) <= |s.text|
    decreases |s.text| - p
  {
    if max == 0 || Matches(a, s, p) == [] then 0
    else
      assert Matches(a, s, p)[0] == p + w;
      1 + Rounds(a, s, w, Decrement(max), p + w)
  }

  lemma {:induction false} DownSnoc(p: nat, k: nat, w: nat)
    requires Span(k, w) <= p && k > 0
    ensures Down(p, k, w) == Down(p, k - 1, w) + [p - Span(k, w)]
    decreases k
  {
    DownFits(k, w, p);
    if k > 1 {
      DownSnoc(p - w, k - 1, w);
    }
  }

  lemma DownFits(k: nat, w: nat, p: nat)
    requires Span(k, w) <= p && k > 0
    ensures w <= p
  {}

  /** What the fast path must offer from p. */
  ghost function Greedily(a: Regex, s: Subject, w: nat, min: nat, max: nat, p: nat): seq<nat>
    requires p <= |s.text| && FixedWidth(a, s, w)
  {
    var t := Rounds(a, s, w, max, p);
    if t < min then [] else Down(p + Span(t, w), t - min, w)
  }

  /** One more round in front. */
  lemma GreedilyStep(a: Regex, s: Subject, w: nat, min: nat, max: nat, p: nat)
    requires p <= |s.text| && FixedWidth(a, s, w) && max > 0 && Matches(a, s, p) == [p + w] && p + w <= |s.text|
    ensures Greedily(a, s, w, min, max, p)
         == if min > 0 then Greedily(a, s, w, min - 1, Decrement(max), p + w)
            else Greedily(a, s, w, 0, Decrement(max), p + w) + [p]
  {
    hide Matches, Down, FixedWidth;
    var t := Rounds(a, s, w, Decrement(max), p + w);
    assert Rounds(a, s, w, max, p) == t + 1;
    hide Rounds;
    assert Span(t + 1, w) == Span(t, w) + w;
    if min == 0 {
      DownSnoc(p + Span(t + 1, w), t + 1, w);
    }
  }

  lemma GreedilyEnd(a: Regex, s: Subject, w: nat, min: nat, max: nat, p: nat)
    requires p <= |s.text| && FixedWidth(a, s, w) && (max == 0 || Matches(a, s, p) == [])
    ensures Greedily(a, s, w, min, max, p) == if min > 0 then [] else [p]
  {
    hide Matches, FixedWidth;
  }

  /** For a fixed-width atom the matches of the ordinary greedy loop run from the longest repetition down
      to min rounds. */
  lemma {:induction false} RepGreedily(a: Regex, s: Subject, w: nat, min: nat, max: nat, p: nat)
    requires p <= |s.text| && FixedWidth(a, s, w) && min <= max <= INF
    ensures Rep(a, min, max, true, s, p) == Greedily(a, s, w, min, max, p)
    decreases |s.text| - p
  {
    hide Rep, Matches, Greedily, FixedWidth, Each;
    if max == 0 || Matches(a, s, p) == [] {
      RepEnd(a, min, max, s, p);
      GreedilyEnd(a, s, w, min, max, p);
    } else {
      FixedWidthAt(a, s, w, p);
      var min', max' := if min == 0 then 0 else min - 1, Decrement(max);
      RepStep(a, min, max, s, p, p + w);
      if min' <= max' {
        RepGreedily(a, s, w, min', max', p + w);
      }
      GreedilyStep(a, s, w, min, max, p);
    }
  }

  lemma FixedWidthAt(a: Regex, s: Subject, w: nat, p: nat)
    requires p <= |s.text| && FixedWidth(a, s, w) && Matches(a, s, p) != []
    ensures Matches(a, s, p) == [p + w] && p < p + w <= |s.text|
  {
    assert Matches(a, s, p)[0] == p + w;
  }

  lemma RepStep(a: Regex, min: nat, max: nat, s: Subject, p: nat, q: nat)
    requires p < q <= |s.text| && max > 0 && Matches(a, s, p) == [q]
    ensures
      var next := Rep(a, if min == 0 then 0 else min - 1, Decrement(max), true, s, q);
      Rep(a, min, max, true, s, p) == if min > 0 then next else next + [p]
  {
    RepUnfold(a, min, max, true, s, p);
    hide Rep, Matches;
    EachOne(ThenRound(a, min, max, true, s, p), q);
  }

  lemma RepEnd(a: Regex, min: nat, max: nat, s: Subject, p: nat)
    requires p <= |s.text| && min <= max && (max == 0 || Matches(a, s, p) == [])
    ensures Rep(a, min, max, true, s, p) == if min > 0 then [] else [p]
  {
    if max > 0 {
      RepUnfold(a, min, max, true, s, p);
    }
  }

  lemma EachOne(k: nat -> seq<nat>, q: nat)
    ensures Each(k, [q]) == k(q)
  {
    assert [q][1..] == [];
    assert k(q) + [] == k(q);
  }

  // The machine.

  /** The operands of a greedy instruction at ops = pc + 1. */
  ghost predicate GreedyAt(m: Machine, ops: nat, next: nat, min: nat, max: nat, w: nat) {
    && ops + 16 <= |m.code|
    && GetOff(m.code, ops) == next && GetU32(m.code, ops + 4) == min
    && GetU32(m.code, ops + 8) == max && GetU32(m.code, ops + 12) == w
  }

  lemma GreedyOperands(m: Machine, pc: nat, next: nat, min: nat, max: nat, w: nat)
    requires Decode(m.code, pc) == Some(IGreedy(next, min, max, w))
    ensures GreedyAt(m, pc + 1, next, min, max, w)
  {
    hide GetOff, GetU32, GetU16, GetPairs;
  }

  /** The frame left after k more rounds than the minimum. */
  ghost function Shorter(ops: nat, k: nat, p: nat, stack: seq<int>, cap: seq<Option<nat>>): seq<Frame> {
    if k == 0 then [] else [Frame(Greedy, k, p, ops, cap, stack)]
  }

  lemma DownBacktrack(m: Machine, ops: nat, next: nat, min: nat, max: nat, w: nat, p: nat, k: nat, stack: seq<int>,
                      cap: seq<Option<nat>>, base: seq<Frame>)
    requires GreedyAt(m, ops, next, min, max, w) && w <= p && k > 0
    ensures Reaches(m, Fail([Frame(Greedy, k, p, ops, cap, stack)] + base),
                    Run(ops + 16 + next, p - w, stack, cap, Shorter(ops, k - 1, p - w, stack, cap) + base))
  {
    hide Reaches, GetOff, GetU32;
    var f := Frame(Greedy, k, p, ops, cap, stack);
    ReachesBacktrack(m, f, base);
    assert ([f] + base)[1..] == base && [] + base == base;
  }

  /** A shortening frame offers one position per failure. */
  lemma {:induction false} DownOffers(m: Machine, ops: nat, next: nat, min: nat, max: nat, w: nat, p: nat, k: nat,
                                      stack: seq<int>, cap: seq<Option<nat>>, base: seq<Frame>)
    requires GreedyAt(m, ops, next, min, max, w) && Span(k, w) <= p
    ensures
      var exit := ops + 16 + next;
      Offers(m, Run(exit, p, stack, cap, Shorter(ops, k, p, stack, cap) + base), exit, stack, cap, base, Down(p, k, w))
    decreases k
  {
    hide Reaches, GetOff, GetU32, Offers;
    var exit := ops + 16 + next;
    if k == 0 {
      assert [] + base == base;
      ReachesSelf(m, Run(exit, p, stack, cap, base));
      OffersOne(m, Run(exit, p, stack, cap, base), exit, stack, cap, base, p);
    } else {
      DownFits(k, w, p);
      var f := Frame(Greedy, k, p, ops, cap, stack);
      var g := Shorter(ops, k - 1, p - w, stack, cap);
      DownOffers(m, ops, next, min, max, w, p - w, k - 1, stack, cap, base);
      DownBacktrack(m, ops, next, min, max, w, p, k, stack, cap, base);
      OffersPre(m, Fail([f] + base), Run(exit, p - w, stack, cap, g + base), exit, stack, cap, base,
                Down(p - w, k - 1, w));
      var c := Run(exit, p, stack, cap, [f] + base);
      ReachesSelf(m, c);
      OffersOne(m, c, exit, stack, cap, [f] + base, p);
      OffersAppend(m, c, exit, stack, cap, [f], base, [p], Down(p - w, k - 1, w));
    }
  }

  /** The inner run decides one round. */
  ghost predicate Decides(m: Machine, pc: nat, a: Regex, w: nat) {
    forall p: nat | p <= |m.subject.text| ::
      RunSimple(m, pc, p) == if Matches(a, m.subject, p) == [] then SimpleFail else SimpleEnd(p + w)
  }

  /** The attempts of the greedy instruction end after the rounds that fit. */
  lemma {:induction false} RepeatingOffers(m: Machine, ops: nat, next: nat, min: nat, max: nat, w: nat, a: Regex,
                                           q: nat, p: nat, stack: seq<int>, cap: seq<Option<nat>>, base: seq<Frame>)
    requires GreedyAt(m, ops, next, min, max, w) && p <= |m.subject.text| && FixedWidth(a, m.subject, w)
    requires Decides(m, ops + 16, a, w) && min <= max <= INF && max > 0 && (q <= max || max == INF) && Span(q, w) <= p
    ensures
      var left := if max == INF then INF else max - q;
      var t := Rounds(a, m.subject, w, left, p);
      Offers(m, Repeating(ops, q, p, stack, cap, base), ops + 16 + next, stack, cap, base,
             if q + t < min then [] else Down(p + Span(t, w), q + t - min, w))
    decreases |m.subject.text| - p
  {
    hide GetOff, GetU32, RunSimple, Matches, Offers, Reaches, Down, Decides, FixedWidth, Span, Step, GreedyAt;
    var left := if max == INF then INF else max - q;
    if left == 0 || Matches(a, m.subject, p) == [] {
      assert Rounds(a, m.subject, w, left, p) == 0;
      assert Span(0, w) == 0 by { SpanZero(w); }
      LastRound(m, ops, next, min, max, w, a, q, p, stack, cap, base);
    } else {
      FixedWidthAt(a, m.subject, w, p);
      SpanStep(q, w);
      RepeatingOffers(m, ops, next, min, max, w, a, q + 1, p + w, stack, cap, base);
      var t := Rounds(a, m.subject, w, Decrement(left), p + w);
      assert Rounds(a, m.subject, w, left, p) == t + 1;
      SpanStep(t, w);
      AnotherRound(m, ops, next, min, max, w, a, q, p, stack, cap, base);
      OffersPre(m, Repeating(ops, q, p, stack, cap, base), Repeating(ops, q + 1, p + w, stack, cap, base),
                ops + 16 + next,
                stack, cap, base, if q + 1 + t < min then [] else Down(p + w + Span(t, w), q + 1 + t - min, w));
    }
  }

  lemma SpanZero(w: nat)
    ensures Span(0, w) == 0
  {}

  lemma SpanStep(t: nat, w: nat)
    ensures Span(t + 1, w) == Span(t, w) + w
  {}

  lemma AnotherRound(m: Machine, ops: nat, next: nat, min: nat, max: nat, w: nat, a: Regex, q: nat, p: nat,
                     stack: seq<int>, cap: seq<Option<nat>>, base: seq<Frame>)
    requires GreedyAt(m, ops, next, min, max, w) && p <= |m.subject.text| && Decides(m, ops + 16, a, w)
    requires max > 0 && (max == INF || q < max) && Matches(a, m.subject, p) != []
    ensures Reaches(m, Repeating(ops, q, p, stack, cap, base), Repeating(ops, q + 1, p + w, stack, cap, base))
  {
    hide GetOff, GetU32, RunSimple, Matches, Reaches;
    ReachesOneStep(m, Repeating(ops, q, p, stack, cap, base), Repeating(ops, q + 1, p + w, stack, cap, base));
  }

  lemma LastRound(m: Machine, ops: nat, next: nat, min: nat, max: nat, w: nat, a: Regex, q: nat, p: nat,
                  stack: seq<int>, cap: seq<Option<nat>>, base: seq<Frame>)
    requires GreedyAt(m, ops, next, min, max, w) && p <= |m.subject.text| && Decides(m, ops + 16, a, w)
    requires min <= max <= INF && max > 0 && Span(q, w) <= p
    requires (max != INF && q >= max) || Matches(a, m.subject, p) == []
    ensures Offers(m, Repeating(ops, q, p, stack, cap, base), ops + 16 + next, stack, cap, base,
                   if q < min then [] else Down(p, q - min, w))
  {
    hide GetOff, GetU32, RunSimple, Matches, Offers, Down, FinishGreedy, Span;
    var c := Repeating(ops, q, p, stack, cap, base);
    assert StepGreedy(m, c) == FinishGreedy(c, next, min);
    FinishOffers(m, ops, next, min, max, w, q, p, stack, cap, base);
  }

  lemma ReachesOneStep(m: Machine, c: Config, d: Config)
    requires Step(m, c) == d
    ensures Reaches(m, c, d)
  {
    ReachesSelf(m, d);
    ReachesStep(m, c, d);
  }

  lemma FinishOffers(m: Machine, ops: nat, next: nat, min: nat, max: nat, w: nat, q: nat, p: nat,
                     stack: seq<int>, cap: seq<Option<nat>>, base: seq<Frame>)
    requires GreedyAt(m, ops, next, min, max, w) && p <= |m.subject.text| && Span(q, w) <= p
    requires
      var c := Repeating(ops, q, p, stack, cap, base);
      StepGreedy(m, c) == FinishGreedy(c, next, min)
    ensures
      Offers(m, Repeating(ops, q, p, stack, cap, base), ops + 16 + next, stack, cap, base,
             if q < min then [] else Down(p, q - min, w))
  {
    hide GetOff, GetU32, RunSimple, Down, Reaches, StepGreedy, Offers;
    var c := Repeating(ops, q, p, stack, cap, base);
    var d := FinishGreedy(c, next, min);
    ReachesOneStep(m, c, d);
    if q < min {
      NothingOffered(m, c, d, ops + 16 + next, stack, cap, base);
    } else {
      FewerRounds(q, min, w, p);
      DownOffers(m, ops, next, min, max, w, p, q - min, stack, cap, base);
      assert [] + base == base;
      OffersPre(m, c, d, ops + 16 + next, stack, cap, base, Down(p, q - min, w));
    }
  }

  lemma NothingOffered(m: Machine, c: Config, d: Config, exit: nat, stack: seq<int>, cap: seq<Option<nat>>,
                       base: seq<Frame>)
    requires Reaches(m, c, d) && d == Fail(base)
    ensures Offers(m, c, exit, stack, cap, base, [])
  {
    hide Reaches;
  }

  lemma {:induction false} FewerRounds(q: nat, min: nat, w: nat, p: nat)
    requires Span(q, w) <= p && min <= q
    ensures Span(q - min, w) <= p
    decreases min
  {
    if min > 0 {
      FewerRounds(q - 1, min - 1, w, p);
    }
  }

  /** The greedy instruction refines the ordinary loop. */
  lemma GreedyFrom(m: Machine, pc: nat, next: nat, min: nat, max: nat, w: nat, a: Regex, p: nat, stack: seq<int>,
                   cap: seq<Option<nat>>)
    requires Decode(m.code, pc) == Some(IGreedy(next, min, max, w)) && p <= |m.subject.text|
    requires Decides(m, pc + 17, a, w) && FixedWidth(a, m.subject, w) && min <= max <= INF && max > 0
    ensures From(m, pc, p, stack, pc + 17 + next, stack, cap, Rep(a, min, max, true, m.subject, p))
  {
    hide Decode, Offers, Rep, Matches, Decides, FixedWidth;
    forall base: seq<Frame>
      ensures Offers(m, Run(pc, p, stack, cap, base), pc + 17 + next, stack, cap, base,
                     Rep(a, min, max, true, m.subject, p))
    {
      GreedyOffers(m, pc, next, min, max, w, a, p, stack, cap, base);
    }
  }

  lemma GreedyOffers(m: Machine, pc: nat, next: nat, min: nat, max: nat, w: nat, a: Regex, p: nat, stack: seq<int>,
                     cap: seq<Option<nat>>, base: seq<Frame>)
    requires Decode(m.code, pc) == Some(IGreedy(next, min, max, w)) && p <= |m.subject.text|
    requires Decides(m, pc + 17, a, w) && FixedWidth(a, m.subject, w) && min <= max <= INF && max > 0
    ensures Offers(m, Run(pc, p, stack, cap, base), pc + 17 + next, stack, cap, base,
                   Rep(a, min, max, true, m.subject, p))
  {
    hide Decode, Offers, Rep, Matches, Decides, FixedWidth;
    GreedyOperands(m, pc, next, min, max, w);
    RepGreedily(a, m.subject, w, min, max, p);
    var c, d := Run(pc, p, stack, cap, base), Repeating(pc + 1, 0, p, stack, cap, base);
    ReachesExec(m, c, IGreedy(next, min, max, w));
    RepeatingOffers(m, pc + 1, next, min, max, w, a, 0, p, stack, cap, base);
    OffersPre(m, c, d, pc + 17 + next, stack, cap, base, Rep(a, min, max, true, m.subject, p));
  }
}
