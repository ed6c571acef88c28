/** The compiled code implements the backtracking semantics. */
module RegexCorrect {
  import opened Byte
  import opened RegexSyntax
  import opened RegexCode
  import opened RegexEmit
  import opened RegexVm
  import opened RegexScan
  import opened RegexBlocks
  import opened RegexLoops
  import opened RegexGreedy

  // Where the parts of the emitted code stand.

  lemma AtCons(code: seq<byte>, p: nat, i: Instr, rest: seq<Instr>)
    requires At(code, p, [i] + rest)
    ensures Decode(code, p) == Some(i) && At(code, p + Size(i), rest)
    ensures Length([i] + rest) == Size(i) + Length(rest)
  {
    hide At, Decode, Bytes, Length;
    AtSplit(code, p, [i], rest);
    AtFetch(code, p, [i] + rest);
    LengthOne(i);
    BytesConcat([i], rest);
  }

  lemma AtAppend(code: seq<byte>, p: nat, a: seq<Instr>, rest: seq<Instr>)
    requires At(code, p, a + rest)
    ensures At(code, p, a) && At(code, p + Length(a), rest)
    ensures Length(a + rest) == Length(a) + Length(rest)
  {
    hide At, Bytes, Length;
    AtSplit(code, p, a, rest);
    BytesConcat(a, rest);
  }

  lemma AltLayout(code: seq<byte>, pc: nat, a: seq<Instr>, b: seq<Instr>)
    requires At(code, pc, AltCode(a, b))
    ensures Decode(code, pc) == Some(ISplitNextFirst(Length(a) + 5)) && At(code, pc + 5, a)
    ensures Decode(code, pc + 5 + Length(a)) == Some(IGoto(Length(b))) && At(code, pc + 10 + Length(a), b)
    ensures Length(AltCode(a, b)) == 10 + Length(a) + Length(b)
  {
    hide At, Decode, Length;
    var i, j := ISplitNextFirst(Length(a) + 5), IGoto(Length(b));
    assert AltCode(a, b) == [i] + (a + ([j] + b));
    AtCons(code, pc, i, a + ([j] + b));
    AtAppend(code, pc + 5, a, [j] + b);
    AtCons(code, pc + 5 + Length(a), j, b);
  }

  /** A body, then a last instruction. */
  lemma TailLayout(code: seq<byte>, pc: nat, a: seq<Instr>, j: Instr)
    requires At(code, pc, a + [j])
    ensures At(code, pc, a) && Decode(code, pc + Length(a)) == Some(j) && At(code, pc + Length(a) + Size(j), [])
    ensures Length(a + [j]) == Length(a) + Size(j)
  {
    hide At, Decode, Length;
    AtAppend(code, pc, a, [j]);
    assert [j] == [j] + [];
    AtCons(code, pc + Length(a), j, []);
    LengthOne(j);
  }

  lemma LookLayout(code: seq<byte>, pc: nat, negated: bool, a: seq<Instr>)
    requires At(code, pc, LookCode(negated, a))
    ensures Decode(code, pc) == Some(ILook(negated, Length(a) + 1)) && At(code, pc + 5, a)
    ensures Decode(code, pc + 5 + Length(a)) == Some(IMatch)
    ensures Length(LookCode(negated, a)) == 6 + Length(a)
  {
    hide At, Decode, Length;
    var i := ILook(negated, Length(a) + 1);
    assert LookCode(negated, a) == [i] + (a + [IMatch]);
    AtCons(code, pc, i, a + [IMatch]);
    TailLayout(code, pc + 5, a, IMatch);
  }

  lemma GreedyLayout(code: seq<byte>, pc: nat, a: seq<Instr>, min: nat, max: nat)
    requires At(code, pc, GreedyCode(a, min, max))
    ensures Decode(code, pc) == Some(IGreedy(Length(a) + 1, min, max, CountChars(a))) && At(code, pc + 17, a)
    ensures Decode(code, pc + 17 + Length(a)) == Some(IMatch)
    ensures Length(GreedyCode(a, min, max)) == 18 + Length(a)
  {
    hide At, Decode, Length, CountChars;
    var i := IGreedy(Length(a) + 1, min, max, CountChars(a));
    assert GreedyCode(a, min, max) == [i] + (a + [IMatch]);
    AtCons(code, pc, i, a + [IMatch]);
    TailLayout(code, pc + 17, a, IMatch);
  }

  lemma GuardLayout(code: seq<byte>, pc: nat, a: seq<Instr>)
    requires At(code, pc, Guarded(a, true))
    ensures Decode(code, pc) == Some(IPushPos) && At(code, pc + 1, a)
    ensures Decode(code, pc + 1 + Length(a)) == Some(ICheckAdvance)
    ensures Length(Guarded(a, true)) == 2 + Length(a)
  {
    hide At, Decode, Length;
    assert Guarded(a, true) == [IPushPos] + (a + [ICheckAdvance]);
    AtCons(code, pc, IPushPos, a + [ICheckAdvance]);
    TailLayout(code, pc + 1, a, ICheckAdvance);
  }

  lemma StarLayout(code: seq<byte>, pc: nat, g: seq<Instr>, greedy: bool)
    requires At(code, pc, StarCode(g, greedy))
    ensures Decode(code, pc) == Some(Branch(greedy, Length(g) + 5)) && At(code, pc + 5, g)
    ensures Decode(code, pc + 5 + Length(g)) == Some(IGoto(-(Length(g) + 10)))
    ensures Length(StarCode(g, greedy)) == 10 + Length(g)
  {
    hide At, Decode, Length;
    var i, j := Branch(greedy, Length(g) + 5), IGoto(-(Length(g) + 10));
    assert StarCode(g, greedy) == [i] + (g + [j]);
    AtCons(code, pc, i, g + [j]);
    TailLayout(code, pc + 5, g, j);
  }

  lemma OptLayout(code: seq<byte>, pc: nat, g: seq<Instr>, greedy: bool)
    requires At(code, pc, OptCode(g, greedy))
    ensures Decode(code, pc) == Some(Branch(greedy, Length(g))) && At(code, pc + 5, g)
    ensures Length(OptCode(g, greedy)) == 5 + Length(g)
  {
    hide At, Decode, Length;
    AtCons(code, pc, Branch(greedy, Length(g)), g);
  }

  /** Body, loop, drop. */
  lemma LoopLayout(code: seq<byte>, pc: nat, a: seq<Instr>, off: int)
    requires At(code, pc, a + [ILoop(off)] + [IDrop])
    ensures At(code, pc, a) && Decode(code, pc + Length(a)) == Some(ILoop(off))
            && Decode(code, pc + Length(a) + 5) == Some(IDrop)
    ensures Length(a + [ILoop(off)] + [IDrop]) == Length(a) + 6
  {
    hide At, Decode, Length;
    TailLayout(code, pc, a + [ILoop(off)], IDrop);
    TailLayout(code, pc, a, ILoop(off));
  }

  lemma CountedLayout(code: seq<byte>, pc: nat, g: seq<Instr>, greedy: bool, max: nat)
    requires At(code, pc, CountedCode(g, greedy, max))
    ensures Decode(code, pc) == Some(IPush(max))
    ensures Decode(code, pc + 5) == Some(Branch(greedy, Length(g) + 5)) && At(code, pc + 10, g)
    ensures Decode(code, pc + 10 + Length(g)) == Some(ILoop(-(Length(g) + 10)))
    ensures Decode(code, pc + 15 + Length(g)) == Some(IDrop)
    ensures Length(CountedCode(g, greedy, max)) == 16 + Length(g)
  {
    hide At, Decode, Length;
    var i, off := Branch(greedy, Length(g) + 5), -(Length(g) + 10);
    assert CountLoop(g, greedy) == [i] + (g + [ILoop(off)] + [IDrop]);
    AtCons(code, pc, IPush(max), CountLoop(g, greedy));
    AtCons(code, pc + 5, i, g + [ILoop(off)] + [IDrop]);
    LoopLayout(code, pc + 10, g, off);
  }

  lemma MandatoryLayout(code: seq<byte>, pc: nat, a: seq<Instr>, min: nat)
    requires At(code, pc, MandatoryCode(a, min)) && min != 1
    ensures Decode(code, pc) == Some(IPush(min)) && At(code, pc + 5, a)
    ensures Decode(code, pc + 5 + Length(a)) == Some(ILoop(-(Length(a) + 5)))
    ensures Decode(code, pc + 10 + Length(a)) == Some(IDrop)
    ensures Length(MandatoryCode(a, min)) == 11 + Length(a)
  {
    hide At, Decode, Length;
    AtCons(code, pc, IPush(min), MandatoryLoop(a));
    LoopLayout(code, pc + 5, a, -(Length(a) + 5));
  }

  // The induction.

  /** Wherever the code of r stands, it implements r. */
  ghost predicate Realizes(m: Machine, r: Regex)
    requires WellFormed(r)
  {
    forall pc: nat | At(m.code, pc, Emit(r)) :: Implements(m, pc, pc + Length(Emit(r)), r)
  }

  lemma AtomRealized(m: Machine, pc: nat, r: Regex)
    requires WellFormed(r) && SubjectOk(m.subject) && At(m.code, pc, Emit(r))
    requires !r.Empty? && !r.Seq? && !r.Alt? && !r.Look? && !r.Quant?
    ensures Implements(m, pc, pc + Length(Emit(r)), r)
  {
    hide At, SubjectOk, Emit, Matches, Accepts, Holds, From, Decode;
    var exit := pc + Length(Emit(r));
    forall p: nat, stack: seq<int>, cap: seq<Option<nat>> | p <= |m.subject.text|
      ensures From(m, pc, p, stack, exit, stack, cap, Matches(r, m.subject, p))
    {
      AtomAgrees(r, m.subject, p);
      var i := Emit(r)[0];
      AtFetch(m.code, pc, Emit(r));
      assert Emit(r) == [i];
      LengthOne(i);
      AtomFrom(m, pc, i, p, stack, cap, Matches(r, m.subject, p));
    }
  }

  lemma AtomFrom(m: Machine, pc: nat, i: Instr, p: nat, stack: seq<int>, cap: seq<Option<nat>>, ends: seq<nat>)
    requires p <= |m.subject.text| && Decode(m.code, pc) == Some(i) && (IsCharOp(i) || IsAssertion(i))
    requires IsCharOp(i) ==> ends == (if p < |m.subject.text| && Accepts(i, m.subject.text[p]) then [p + 1] else [])
    requires !IsCharOp(i) ==> ends == (if Holds(i, m.subject, p) then [p] else [])
    ensures From(m, pc, p, stack, pc + Size(i), stack, cap, ends)
  {
    hide Accepts, Holds, From, Decode;
    if ends == [] {
      FailFrom(m, pc, i, p, stack, pc + Size(i), stack, cap);
    } else {
      HereFrom(m, ends[0], pc + Size(i), stack, cap);
      assert ends == [ends[0]];
      StepFrom(m, pc, i, p, stack, pc + Size(i), ends[0], stack, pc + Size(i), stack, cap, ends);
    }
  }

  lemma EmptyImplements(m: Machine, pc: nat)
    ensures Implements(m, pc, pc, Empty)
  {
    hide From;
    forall p: nat, stack: seq<int>, cap: seq<Option<nat>> | p <= |m.subject.text|
      ensures From(m, pc, p, stack, pc, stack, cap, Matches(Empty, m.subject, p))
    {
      HereFrom(m, p, pc, stack, cap);
    }
  }

  // Repetitions.

  lemma GuardsAt(m: Machine, pc: nat, a: Regex, check: bool)
    requires WellFormed(a) && Realizes(m, a) && At(m.code, pc, Guarded(Emit(a), check))
    requires !check ==> Advances(a, m.subject)
    ensures Guards(m, pc, pc + Length(Guarded(Emit(a), check)), check, a)
  {
    hide At, Decode, Implements, Emit, Length, Advances;
    if check {
      GuardLayout(m.code, pc, Emit(a));
    }
  }

  /** Either the compiler emits the position check or the atom always advances. */
  lemma CheckOrAdvance(a: Regex, greedy: bool, s: Subject)
    requires WellFormed(a) && (greedy || NeverEmpty(a, s)) && !(greedy && NeedCheck(Emit(a)))
    ensures Advances(a, s)
  {
    hide Matches, Emit, NeedCheck;
    forall p: nat | p <= |s.text|
      ensures AtLeast(p, 1, Matches(a, s, p))
    {
      if greedy {
        NoCheckAdvances(a, s, p);
      } else {
        assert p !in Matches(a, s, p);
      }
    }
  }

  /** The code for the rounds beyond the mandatory ones. */
  lemma OptionalContinues(m: Machine, pc: nat, a: Regex, check: bool, greedy: bool, min: nat, max: nat, stack: seq<int>,
                          cap: seq<Option<nat>>)
    requires WellFormed(a) && Realizes(m, a) && min <= max <= INF && (min < max || max == INF)
    requires !check ==> Advances(a, m.subject)
    requires At(m.code, pc, OptionalCode(Guarded(Emit(a), check), greedy, min, max))
    ensures Continues(m, pc, stack, pc + Length(OptionalCode(Guarded(Emit(a), check), greedy, min, max)), stack, cap,
                      ThenRep(a, 0, Left(min, max), greedy, m.subject), 0)
  {
    hide At, Decode, Emit, Length, From, Matches, Guards, Realizes, Guarded, Advances;
    var g := Guarded(Emit(a), check);
    if max == INF {
      StarLayout(m.code, pc, g, greedy);
      GuardsAt(m, pc + 5, a, check);
      var end := pc + 5 + Length(g);
      var exit := end + 5;
      forall q: nat | 0 <= q <= |m.subject.text|
        ensures From(m, pc, q, stack, exit, stack, cap, ThenRep(a, 0, INF, greedy, m.subject)(q))
      {
        StarFrom(m, pc, end, check, greedy, a, q, stack, cap);
      }
    } else {
      CountedLayout(m.code, pc, g, greedy, max - min);
      GuardsAt(m, pc + 10, a, check);
      var end := pc + 10 + Length(g);
      var exit, k := end + 6, ThenRep(a, 0, max - min, greedy, m.subject);
      forall q: nat | 0 <= q <= |m.subject.text|
        ensures From(m, pc, q, stack, exit, stack, cap, k(q))
      {
        CountFrom(m, pc + 5, end, check, greedy, a, max - min, q, stack, cap);
        StepFrom(m, pc, IPush(max - min), q, stack, pc + 5, q, stack + [max - min], end + 6, stack, cap,
                 Rep(a, 0, max - min, greedy, m.subject, q));
      }
    }
  }

  lemma MandatoryCodeFrom(m: Machine, pc: nat, a: Regex, min: nat, p: nat, stack: seq<int>, cap: seq<Option<nat>>)
    requires WellFormed(a) && Realizes(m, a) && At(m.code, pc, MandatoryCode(Emit(a), min)) && min > 0
    requires p <= |m.subject.text|
    ensures From(m, pc, p, stack, pc + Length(MandatoryCode(Emit(a), min)), stack, cap, Times(a, min, m.subject, p))
  {
    hide At, Decode, Emit, Length, From, Matches;
    if min == 1 {
      TimesOnce(a, m.subject, p);
    } else {
      MandatoryLayout(m.code, pc, Emit(a), min);
      var end := pc + 5 + Length(Emit(a));
      MandatoryFrom(m, pc + 5, end, a, min, p, stack, cap);
      StepFrom(m, pc, IPush(min), p, stack, pc + 5, p, stack + [min], end + 6, stack, cap, Times(a, min, m.subject, p));
    }
  }

  /** Mandatory rounds, then optional ones. */
  lemma MandatoryThenOptional(m: Machine, pc: nat, a: Regex, check: bool, min: nat, max: nat, greedy: bool, p: nat,
                              stack: seq<int>, cap: seq<Option<nat>>)
    requires WellFormed(a) && Realizes(m, a) && 0 < min <= max <= INF && p <= |m.subject.text|
    requires !check && (min < max || max == INF) ==> Advances(a, m.subject)
    requires At(m.code, pc, MandatoryCode(Emit(a), min) + OptionalCode(Guarded(Emit(a), check), greedy, min, max))
    ensures From(m, pc, p, stack,
                 pc + Length(MandatoryCode(Emit(a), min) + OptionalCode(Guarded(Emit(a), check), greedy, min, max)),
                 stack, cap, Rep(a, min, max, greedy, m.subject, p))
  {
    hide At, Emit, Length, From, Matches, Realizes, MandatoryCode, Guarded, Times, Rep, Advances;
    var first, second := MandatoryCode(Emit(a), min), OptionalCode(Guarded(Emit(a), check), greedy, min, max);
    AtAppend(m.code, pc, first, second);
    MandatoryCodeFrom(m, pc, a, min, p, stack, cap);
    RepSplit(a, min, max, greedy, m.subject, p);
    if min < max || max == INF {
      hide OptionalCode;
      OptionalContinues(m, pc + Length(first), a, check, greedy, min, max, stack, cap);
      TimesForward(a, min, m.subject, p);
      EachFrom(m, pc, p, stack, pc + Length(first), stack, pc + Length(first) + Length(second), stack, cap,
               ThenRep(a, 0, Left(min, max), greedy, m.subject), 0, Times(a, min, m.subject, p));
    } else {
      assert first + second == first;
      TimesForward(a, min, m.subject, p);
      RepNone(a, greedy, m.subject);
      EachUnit(ThenRep(a, 0, 0, greedy, m.subject), Times(a, min, m.subject, p));
    }
  }

  lemma RepNone(a: Regex, greedy: bool, s: Subject)
    ensures forall q: nat | q <= |s.text| :: ThenRep(a, 0, 0, greedy, s)(q) == [q]
  {}

  /** Does the compiler use the greedy instruction? */
  ghost predicate UsesGreedy(a: seq<Instr>, max: nat, greedy: bool) {
    greedy && max > 0 && SimpleCount(a) > 0
  }

  /** The repetitions without mandatory rounds, and the mandatory forms. */
  lemma LoopFormFrom(m: Machine, pc: nat, a: Regex, min: nat, max: nat, greedy: bool, p: nat, stack: seq<int>,
                     cap: seq<Option<nat>>)
    requires WellFormed(Quant(a, min, max, greedy)) && LazyFits(Quant(a, min, max, greedy), m.subject)
             && Realizes(m, a) && p <= |m.subject.text|
    requires !UsesGreedy(Emit(a), max, greedy) && At(m.code, pc, QuantCode(Emit(a), min, max, greedy))
    ensures From(m, pc, p, stack, pc + Length(QuantCode(Emit(a), min, max, greedy)), stack, cap,
                 Rep(a, min, max, greedy, m.subject, p))
  {
    hide At, Emit, Length, From, Matches, Realizes, MandatoryCode, OptionalCode, OptCode, PlusCode, Guarded, NeedCheck,
        SimpleCount,
      Advances, Rep, Implements;
    var check := greedy && NeedCheck(Emit(a));
    if !check && (min < max || max == INF) {
      CheckOrAdvance(a, greedy, m.subject);
    }
    if min > 0 {
      if min == 1 && max == INF && !check {
        PlusCodeFrom(m, pc, a, greedy, p, stack, cap);
      } else {
        MandatoryThenOptional(m, pc, a, check, min, max, greedy, p, stack, cap);
      }
    } else if max == 0 {
      RepNone(a, greedy, m.subject);
      assert ThenRep(a, 0, 0, greedy, m.subject)(p) == [p];
      LengthNone();
      HereFrom(m, p, pc, stack, cap);
    } else if max == 1 {
      OptCodeFrom(m, pc, a, check, greedy, p, stack, cap);
    } else {
      OptionalContinues(m, pc, a, check, greedy, 0, max, stack, cap);
      var k := ThenRep(a, 0, Left(0, max), greedy, m.subject);
      var code := OptionalCode(Guarded(Emit(a), check), greedy, 0, max);
      assert From(m, pc, p, stack, pc + Length(code), stack, cap, k(p));
      assert k(p) == Rep(a, 0, max, greedy, m.subject, p);
      assert QuantCode(Emit(a), min, max, greedy) == code;
    }
  }

  lemma LengthNone()
    ensures Length([]) == 0
  {}

  lemma PlusCodeFrom(m: Machine, pc: nat, a: Regex, greedy: bool, p: nat, stack: seq<int>, cap: seq<Option<nat>>)
    requires WellFormed(a) && Realizes(m, a) && At(m.code, pc, PlusCode(Emit(a), greedy)) && p <= |m.subject.text|
    requires Advances(a, m.subject)
    ensures From(m, pc, p, stack, pc + Length(PlusCode(Emit(a), greedy)), stack, cap,
                 Rep(a, 1, INF, greedy, m.subject, p))
  {
    hide At, Emit, Length, From, Decode, Matches, Advances, Rep, Implements;
    TailLayout(m.code, pc, Emit(a), Branch(!greedy, -(Length(Emit(a)) + 5)));
    PlusFrom(m, pc, pc + Length(Emit(a)), greedy, a, p, stack, cap);
  }

  lemma OptCodeFrom(m: Machine, pc: nat, a: Regex, check: bool, greedy: bool, p: nat, stack: seq<int>,
                    cap: seq<Option<nat>>)
    requires WellFormed(a) && Realizes(m, a) && p <= |m.subject.text| && (!check ==> Advances(a, m.subject))
    requires At(m.code, pc, OptCode(Guarded(Emit(a), check), greedy))
    ensures From(m, pc, p, stack, pc + Length(OptCode(Guarded(Emit(a), check), greedy)), stack, cap,
                 Rep(a, 0, 1, greedy, m.subject, p))
  {
    hide At, Emit, Length, From, Decode, Matches, Advances, Rep, Guarded, Guards, Realizes;
    var g := Guarded(Emit(a), check);
    OptLayout(m.code, pc, g, greedy);
    GuardsAt(m, pc + 5, a, check);
    OptFrom(m, pc, pc + 5 + Length(g), check, greedy, a, p, stack, cap);
  }

  /** The body of the greedy instruction decides one round of the atom. */
  lemma SimpleDecides(m: Machine, pc: nat, a: Regex)
    requires WellFormed(a) && IsSimple(Emit(a)) && At(m.code, pc, Emit(a)) && SubjectOk(m.subject)
    requires Decode(m.code, pc + Length(Emit(a))) == Some(IMatch)
    ensures Decides(m, pc, a, CountChars(Emit(a)))
  {
    hide At, Emit, Matches, IsSimple, SubjectOk, RunSimple, Decode, CountChars;
    forall p: nat | p <= |m.subject.text|
      ensures RunSimple(m, pc, p)
           == if Matches(a, m.subject, p) == [] then SimpleFail else SimpleEnd(p + CountChars(Emit(a)))
    {
      RunSimpleEmit(m, pc, a, p);
      SimpleMatches(a, m.subject, p);
      if Matches(a, m.subject, p) != [] {
        RunSimpleInstr(m, pc + Length(Emit(a)), IMatch, Matches(a, m.subject, p)[0]);
      }
    }
  }

  lemma SimpleFixed(a: Regex, s: Subject)
    requires WellFormed(a) && IsSimple(Emit(a)) && CountChars(Emit(a)) > 0
    ensures FixedWidth(a, s, CountChars(Emit(a)))
  {
    hide Emit, Matches, IsSimple, CountChars;
    forall p: nat | p <= |s.text|
      ensures Matches(a, s, p) == [] || Matches(a, s, p) == [p + CountChars(Emit(a))]
    {
      SimpleMatches(a, s, p);
    }
  }

  /** The fast path refines the ordinary loop. */
  lemma GreedyFormFrom(m: Machine, pc: nat, a: Regex, min: nat, max: nat, p: nat, stack: seq<int>,
                       cap: seq<Option<nat>>)
    requires WellFormed(a) && min <= max <= INF && p <= |m.subject.text| && SubjectOk(m.subject)
    requires UsesGreedy(Emit(a), max, true) && At(m.code, pc, GreedyCode(Emit(a), min, max))
    ensures From(m, pc, p, stack, pc + Length(GreedyCode(Emit(a), min, max)), stack, cap,
                 Rep(a, min, max, true, m.subject, p))
  {
    hide At, Emit, Length, From, Matches, Rep, CountChars, IsSimple, Decode, SubjectOk, Decides, FixedWidth;
    GreedyLayout(m.code, pc, Emit(a), min, max);
    SimpleDecides(m, pc + 17, a);
    SimpleFixed(a, m.subject);
    GreedyFrom(m, pc, Length(Emit(a)) + 1, min, max, CountChars(Emit(a)), a, p, stack, cap);
  }

  lemma QuantImplements(m: Machine, pc: nat, a: Regex, min: nat, max: nat, greedy: bool)
    requires WellFormed(Quant(a, min, max, greedy)) && LazyFits(Quant(a, min, max, greedy), m.subject)
             && Realizes(m, a) && SubjectOk(m.subject)
    requires At(m.code, pc, QuantCode(Emit(a), min, max, greedy))
    ensures Implements(m, pc, pc + Length(QuantCode(Emit(a), min, max, greedy)), Quant(a, min, max, greedy))
  {
    hide At, Emit, Length, From, Matches, Realizes, Rep, SimpleCount, NeedCheck, SubjectOk, GreedyCode;
    var exit := pc + Length(QuantCode(Emit(a), min, max, greedy));
    forall p: nat, stack: seq<int>, cap: seq<Option<nat>> | p <= |m.subject.text|
      ensures From(m, pc, p, stack, exit, stack, cap, Matches(Quant(a, min, max, greedy), m.subject, p))
    {
      if UsesGreedy(Emit(a), max, greedy) {
        GreedyFormFrom(m, pc, a, min, max, p, stack, cap);
      } else {
        hide QuantCode;
        LoopFormFrom(m, pc, a, min, max, greedy, p, stack, cap);
      }
      MatchesQuant(a, min, max, greedy, m.subject, p);
    }
  }

  lemma MatchesQuant(a: Regex, min: nat, max: nat, greedy: bool, s: Subject, p: nat)
    requires p <= |s.text|
    ensures Matches(Quant(a, min, max, greedy), s, p) == Rep(a, min, max, greedy, s, p)
  {}

  /** Compiler correctness: wherever the code of a pattern stands, running it from any position, with any
      counter stack, captures and saved states, offers exactly the matches of the pattern, in order. */
  lemma {:induction false} EmitImplements(m: Machine, pc: nat, r: Regex)
    requires WellFormed(r) && LazyFits(r, m.subject) && SubjectOk(m.subject) && At(m.code, pc, Emit(r))
    ensures Implements(m, pc, pc + Length(Emit(r)), r)
    decreases r
  {
    hide At, Length, Implements, Matches, SubjectOk, QuantCode, AltCode, LookCode, Decode;
    match r {
      case Empty =>
        LengthNone();
        EmptyImplements(m, pc);
      case Seq(a, b) =>
        AtAppend(m.code, pc, Emit(a), Emit(b));
        EmitImplements(m, pc, a);
        EmitImplements(m, pc + Length(Emit(a)), b);
        SeqImplements(m, pc, pc + Length(Emit(a)), pc + Length(Emit(r)), a, b);
      case Alt(a, b) =>
        AltLayout(m.code, pc, Emit(a), Emit(b));
        EmitImplements(m, pc + 5, a);
        EmitImplements(m, pc + 10 + Length(Emit(a)), b);
        AltImplements(m, pc, Length(Emit(a)), Length(Emit(b)), a, b);
      case Look(negated, a) =>
        LookLayout(m.code, pc, negated, Emit(a));
        EmitImplements(m, pc + 5, a);
        LookImplements(m, pc, Length(Emit(a)), negated, a);
      case Quant(a, min, max, greedy) =>
        forall pc': nat | At(m.code, pc', Emit(a))
          ensures Implements(m, pc', pc' + Length(Emit(a)), a)
        {
          EmitImplements(m, pc', a);
        }
        QuantImplements(m, pc, a, min, max, greedy);
      case _ =>
        AtomRealized(m, pc, r);
    }
  }
}
