/** What the code of a lazy repetition does when its body can match nothing. No position check is emitted, so
    the bounded forms offer the rounds that stay in place as well. */
module RegexUnchecked {
  import opened RegexSyntax
  import opened RegexCode
  import opened RegexEmit
  import opened RegexVm
  import opened RegexBlocks
  import opened RegexLoops
  import opened RegexCorrect

  /** At most n lazy rounds of a, none of them refused. */
  ghost function Unchecked(a: Regex, n: nat, s: Subject, p: nat): (ends: seq<nat>)
    requires p <= |s.text|
    decreases n
  {
    if n == 0 then [p]
    else [p] + Each((q: nat) => if q <= |s.text| then Unchecked(a, n - 1, s, q) else [], Matches(a, s, p))
  }

  ghost function ThenUnchecked(a: Regex, n: nat, s: Subject): nat -> seq<nat> {
    (q: nat) => if q <= |s.text| then Unchecked(a, n, s, q) else []
  }

  lemma UncheckedUnfold(a: Regex, n: nat, s: Subject, p: nat)
    requires p <= |s.text| && n > 0
    ensures Unchecked(a, n, s, p) == [p] + Each(ThenUnchecked(a, n - 1, s), Matches(a, s, p))
  {
    EachSame((q: nat) => if q <= |s.text| then Unchecked(a, n - 1, s, q) else [], ThenUnchecked(a, n - 1, s),
             Matches(a, s, p));
  }

  // It is longer than the repetition of the standard where a round can stay in place.

  lemma {:induction false} EachLonger(j: nat -> seq<nat>, k: nat -> seq<nat>, starts: seq<nat>, p: nat)
    requires forall i :: 0 <= i < |starts| ==> |j(starts[i])| <= |k(starts[i])|
    requires p in starts ==> |j(p)| <= |k(p)|
    ensures |Each(j, starts)| <= |Each(k, starts)|
    ensures p in starts && |j(p)| < |k(p)| ==> |Each(j, starts)| < |Each(k, starts)|
    decreases |starts|
  {
    if starts != [] {
      assert |j(starts[0])| <= |k(starts[0])|;
      EachLonger(j, k, starts[1..], p);
      if p in starts && p != starts[0] {
        assert p in starts[1..];
      }
    }
  }

  lemma {:induction false} UncheckedLonger(a: Regex, n: nat, s: Subject, p: nat)
    requires p <= |s.text| && n < INF
    ensures 1 <= |Rep(a, 0, n, false, s, p)| <= |Unchecked(a, n, s, p)|
    ensures n > 0 && p in Matches(a, s, p) ==> |Rep(a, 0, n, false, s, p)| < |Unchecked(a, n, s, p)|
    decreases n
  {
    hide Matches;
    if n > 0 {
      var starts := Matches(a, s, p);
      var j, k := ThenRound(a, 0, n, false, s, p), ThenUnchecked(a, n - 1, s);
      forall i | 0 <= i < |starts|
        ensures |j(starts[i])| <= |k(starts[i])| && (starts[i] == p ==> |j(p)| < |k(p)|)
      {
        UncheckedLonger(a, n - 1, s, starts[i]);
        if starts[i] != p {
          OptionalRound(a, n, false, s, p, starts[i]);
        }
      }
      EachLonger(j, k, starts, p);
      RepUnfold(a, 0, n, false, s, p);
      UncheckedUnfold(a, n, s, p);
    }
  }

  /** Rounds that stay in place. */
  lemma {:induction false} TimesStays(a: Regex, n: nat, s: Subject, p: nat)
    requires p <= |s.text| && p in Matches(a, s, p)
    ensures p in Times(a, n, s, p)
    decreases n
  {
    hide Matches;
    if n > 0 {
      TimesStays(a, n - 1, s, p);
      TimesUnfold(a, n, s, p);
      EachHas(ThenTimes(a, n - 1, s), Matches(a, s, p), p, p);
    }
  }

  lemma {:induction false} EachHas(k: nat -> seq<nat>, starts: seq<nat>, q: nat, x: nat)
    requires q in starts && x in k(q)
    ensures x in Each(k, starts)
    decreases |starts|
  {
    if q != starts[0] {
      EachHas(k, starts[1..], q, x);
    }
  }

  /** Mandatory rounds, then rounds without check: longer than the repetition of the standard. */
  lemma LazyLonger(a: Regex, min: nat, max: nat, s: Subject, p: nat)
    requires p <= |s.text| && min < max < INF && p in Matches(a, s, p)
    ensures |Rep(a, min, max, false, s, p)| < |Each(ThenUnchecked(a, max - min, s), Times(a, min, s, p))|
  {
    hide Matches, Rep, Unchecked, Times;
    var starts, j, k := Times(a, min, s, p), ThenRep(a, 0, max - min, false, s), ThenUnchecked(a, max - min, s);
    TimesForward(a, min, s, p);
    TimesStays(a, min, s, p);
    forall i | 0 <= i < |starts|
      ensures |j(starts[i])| <= |k(starts[i])|
    {
      UncheckedLonger(a, max - min, s, starts[i]);
    }
    UncheckedLonger(a, max - min, s, p);
    EachLonger(j, k, starts, p);
    RepSplit(a, min, max, false, s, p);
  }

  // It is what the code offers.

  lemma {:induction false} CountUnchecked(m: Machine, pc: nat, end: nat, a: Regex, n: nat, p: nat, stack: seq<int>,
                                          cap: seq<Option<nat>>)
    requires Decode(m.code, pc) == Some(ISplitGotoFirst(end - pc)) && Implements(m, pc + 5, end, a)
             && LoopAt(m, end, pc)
    requires p <= |m.subject.text| && n > 0
    ensures From(m, pc, p, stack + [n], end + 6, stack, cap, Unchecked(a, n, m.subject, p))
    decreases n
  {
    hide From, Decode, Matches, LoopAt, Unchecked;
    var k, starts := ThenUnchecked(a, n - 1, m.subject), Matches(a, m.subject, p);
    forall q: nat | p <= q <= |m.subject.text|
      ensures From(m, end, q, stack + [n], end + 6, stack, cap, k(q))
    {
      if n > 1 {
        CountUnchecked(m, pc, end, a, n - 1, q, stack, cap);
      } else {
        UncheckedNone(a, m.subject, q);
      }
      LoopFrom(m, end, pc, q, stack, n, cap, k(q));
    }
    assert From(m, pc + 5, p, stack + [n], end, stack + [n], cap, starts);
    EachFrom(m, pc + 5, p, stack + [n], end, stack + [n], end + 6, stack, cap, k, p, starts);
    LoopDrops(m, end, pc);
    DropFrom(m, end + 5, p, stack, n, cap);
    BranchFrom(m, pc, ISplitGotoFirst(end - pc), p, end + 6, stack + [n], stack, cap, [p], Each(k, starts));
    UncheckedUnfold(a, n, m.subject, p);
  }

  lemma UncheckedNone(a: Regex, s: Subject, p: nat)
    requires p <= |s.text|
    ensures Unchecked(a, 0, s, p) == [p]
  {}

  lemma OptUnchecked(m: Machine, pc: nat, end: nat, a: Regex, p: nat, stack: seq<int>, cap: seq<Option<nat>>)
    requires end >= pc + 5 && Decode(m.code, pc) == Some(ISplitGotoFirst(end - pc - 5)) && Implements(m, pc + 5, end, a)
    requires p <= |m.subject.text|
    ensures From(m, pc, p, stack, end, stack, cap, Unchecked(a, 1, m.subject, p))
  {
    hide From, Decode, Matches, Unchecked;
    var starts := Matches(a, m.subject, p);
    HereFrom(m, p, end, stack, cap);
    assert From(m, pc + 5, p, stack, end, stack, cap, starts);
    BranchFrom(m, pc, ISplitGotoFirst(end - pc - 5), p, end, stack, stack, cap, [p], starts);
    UncheckedUnfold(a, 1, m.subject, p);
    forall i | 0 <= i < |starts|
      ensures ThenUnchecked(a, 0, m.subject)(starts[i]) == [starts[i]]
    {
      UncheckedNone(a, m.subject, starts[i]);
    }
    EachUnit(ThenUnchecked(a, 0, m.subject), starts);
  }

  /** The code for the optional rounds, bounded. */
  lemma CountedUnchecked(m: Machine, pc: nat, a: Regex, n: nat, p: nat, stack: seq<int>, cap: seq<Option<nat>>)
    requires WellFormed(a) && Realizes(m, a) && n > 0 && p <= |m.subject.text|
    requires At(m.code, pc, CountedCode(Emit(a), false, n))
    ensures From(m, pc, p, stack, pc + Length(CountedCode(Emit(a), false, n)), stack, cap,
                 Unchecked(a, n, m.subject, p))
  {
    hide At, Decode, Emit, Length, From, Matches, Unchecked;
    CountedLayout(m.code, pc, Emit(a), false, n);
    var end := pc + 10 + Length(Emit(a));
    CountUnchecked(m, pc + 5, end, a, n, p, stack, cap);
    StepFrom(m, pc, IPush(n), p, stack, pc + 5, p, stack + [n], end + 6, stack, cap, Unchecked(a, n, m.subject, p));
  }

  /** What the code of a bounded lazy repetition offers. */
  ghost function LazyOffers(a: Regex, min: nat, max: nat, s: Subject, p: nat): seq<nat>
    requires p <= |s.text| && min <= max
  {
    Each(ThenUnchecked(a, max - min, s), Times(a, min, s, p))
  }

  lemma BoundedFrom(m: Machine, pc: nat, a: Regex, min: nat, max: nat, p: nat, stack: seq<int>, cap: seq<Option<nat>>)
    requires WellFormed(a) && Realizes(m, a) && min < max < INF && p <= |m.subject.text|
    requires At(m.code, pc, QuantCode(Emit(a), min, max, false))
    ensures From(m, pc, p, stack, pc + Length(QuantCode(Emit(a), min, max, false)), stack, cap,
                 LazyOffers(a, min, max, m.subject, p))
  {
    hide At, Emit, Length, From, Matches, Realizes, MandatoryCode, OptCode, CountedCode, PlusCode, GreedyCode,
        SimpleCount, NeedCheck, Unchecked, Implements;
    if min > 0 {
      MandatoryBounded(m, pc, a, min, max, p, stack, cap);
    } else {
      TimesNone(a, m.subject, p, ThenUnchecked(a, max, m.subject));
      if max == 1 {
        OptBounded(m, pc, a, p, stack, cap);
      } else {
        CountedUnchecked(m, pc, a, max, p, stack, cap);
      }
    }
  }

  lemma TimesNone(a: Regex, s: Subject, p: nat, k: nat -> seq<nat>)
    requires p <= |s.text|
    ensures Each(k, Times(a, 0, s, p)) == k(p)
  {
    assert Times(a, 0, s, p) == [p] && [p][1..] == [];
    assert Each(k, [p]) == k(p) + [];
  }

  lemma OptBounded(m: Machine, pc: nat, a: Regex, p: nat, stack: seq<int>, cap: seq<Option<nat>>)
    requires WellFormed(a) && Realizes(m, a) && p <= |m.subject.text| && At(m.code, pc, OptCode(Emit(a), false))
    ensures From(m, pc, p, stack, pc + Length(OptCode(Emit(a), false)), stack, cap, Unchecked(a, 1, m.subject, p))
  {
    hide At, Decode, Emit, Length, From, Matches, Unchecked;
    OptLayout(m.code, pc, Emit(a), false);
    OptUnchecked(m, pc, pc + 5 + Length(Emit(a)), a, p, stack, cap);
  }

  lemma MandatoryBounded(m: Machine, pc: nat, a: Regex, min: nat, max: nat, p: nat, stack: seq<int>,
                         cap: seq<Option<nat>>)
    requires WellFormed(a) && Realizes(m, a) && 0 < min < max < INF && p <= |m.subject.text|
    requires At(m.code, pc, MandatoryCode(Emit(a), min) + CountedCode(Emit(a), false, max - min))
    ensures From(m, pc, p, stack, pc + Length(MandatoryCode(Emit(a), min) + CountedCode(Emit(a), false, max - min)),
                 stack, cap, LazyOffers(a, min, max, m.subject, p))
  {
    hide At, Emit, Length, From, Matches, Realizes, MandatoryCode, CountedCode, Unchecked, Times;
    var first, second := MandatoryCode(Emit(a), min), CountedCode(Emit(a), false, max - min);
    AtAppend(m.code, pc, first, second);
    MandatoryCodeFrom(m, pc, a, min, p, stack, cap);
    TimesForward(a, min, m.subject, p);
    var mid, exit, k := pc + Length(first), pc + Length(first) + Length(second), ThenUnchecked(a, max - min, m.subject);
    forall q: nat | 0 <= q <= |m.subject.text|
      ensures From(m, mid, q, stack, exit, stack, cap, k(q))
    {
      CountedUnchecked(m, mid, a, max - min, q, stack, cap);
    }
    EachFrom(m, pc, p, stack, mid, stack, exit, stack, cap, k, 0, Times(a, min, m.subject, p));
  }
}
