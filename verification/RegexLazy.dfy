/** Lazy repetitions of bodies that can match nothing: the compiler emits no position check for them. The code
    means the repetition exactly on texts where the body has no empty match; elsewhere the interpreter goes
    round for ever, or tries rounds that the standard refuses and reports another match. */
module RegexLazy {
  import opened Byte
  import opened RegexSyntax
  import opened RegexCode
  import opened RegexEmit
  import opened RegexVm
  import opened RegexOffers
  import opened RegexPaths
  import opened RegexScan
  import opened RegexBlocks
  import opened RegexLoops
  import opened RegexCorrect
  import opened RegexUnchecked
  import opened RegexLazyLoop
  import opened RegexProgram

  // When lazy repetitions are right.

  /** Wherever the code of r stands, it implements r on the text. */
  ghost predicate EveryPlace(r: Regex, s: Subject)
    requires WellFormed(r)
  {
    forall code: seq<byte>, pc: nat | At(code, pc, Emit(r)) :: Implements(Machine(code, s), pc, pc + Length(Emit(r)), r)
  }

  /** The code of a pattern standing alone. */
  lemma AloneAt(r: Regex)
    requires WellFormed(r) && CodeOk(Emit(r))
    ensures At(Bytes(Emit(r)), 0, Emit(r)) && Decode(Bytes(Emit(r)), 0 + Length(Emit(r))) == None
  {
    hide Emit, CodeOk;
    LengthIs(Emit(r));
    assert Bytes(Emit(r))[0..Length(Emit(r))] == Bytes(Emit(r));
  }

  lemma BodyRealized(m: Machine, a: Regex)
    requires WellFormed(a) && LazyFits(a, m.subject) && SubjectOk(m.subject)
    ensures Realizes(m, a)
  {
    hide At, Emit, Length, Implements, SubjectOk, LazyFits;
    forall pc: nat | At(m.code, pc, Emit(a))
      ensures Implements(m, pc, pc + Length(Emit(a)), a)
    {
      EmitImplements(m, pc, a);
    }
  }

  /** The exact condition for one lazy repetition. */
  lemma LazyExact(a: Regex, min: nat, max: nat, s: Subject)
    requires WellFormed(Quant(a, min, max, false)) && (min < max || max == INF)
             && CodeOk(Emit(Quant(a, min, max, false)))
    requires LazyFits(a, s) && SubjectOk(s)
    ensures EveryPlace(Quant(a, min, max, false), s) <==> NeverEmpty(a, s)
  {
    hide At, Emit, Length, Implements, SubjectOk, CodeOk, Matches;
    var q := Quant(a, min, max, false);
    if NeverEmpty(a, s) {
      forall code: seq<byte>, pc: nat | At(code, pc, Emit(q))
        ensures Implements(Machine(code, s), pc, pc + Length(Emit(q)), q)
      {
        EmitImplements(Machine(code, s), pc, q);
      }
    } else {
      var p: nat :| p <= |s.text| && p in Matches(a, s, p);
      AloneAt(q);
      var m := Machine(Bytes(Emit(q)), s);
      NotImplemented(m, a, min, max, p);
    }
  }

  lemma QuantEmit(a: Regex, min: nat, max: nat)
    requires WellFormed(Quant(a, min, max, false))
    ensures Emit(Quant(a, min, max, false)) == QuantCode(Emit(a), min, max, false)
  {}

  lemma NotImplemented(m: Machine, a: Regex, min: nat, max: nat, p: nat)
    requires WellFormed(Quant(a, min, max, false)) && (min < max || max == INF) && LazyFits(a, m.subject)
             && SubjectOk(m.subject)
    requires At(m.code, 0, Emit(Quant(a, min, max, false)))
             && Decode(m.code, 0 + Length(Emit(Quant(a, min, max, false)))) == None
    requires p <= |m.subject.text| && p in Matches(a, m.subject, p)
    ensures !Implements(m, 0, 0 + Length(Emit(Quant(a, min, max, false))), Quant(a, min, max, false))
  {
    hide At, Decode, Emit, Length, SubjectOk, Matches, LazyFits, Realizes, QuantCode, Rep;
    var q, exit, p' := Quant(a, min, max, false), 0 + Length(Emit(Quant(a, min, max, false))), p;
    BodyRealized(m, a);
    QuantEmit(a, min, max);
    if max == INF {
      p' := LastEmptyExists(a, m.subject, p);
    }
    MatchesQuant(a, min, max, false, m.subject, p');
    ContradictsOffer(m, a, min, max, p', exit);
    assert !From(m, 0, p', [], exit, [], NO_CAPTURE, Matches(q, m.subject, p'));
  }

  lemma ContradictsOffer(m: Machine, a: Regex, min: nat, max: nat, p: nat, exit: nat)
    requires WellFormed(a) && Realizes(m, a) && min <= max <= INF && (min < max || max == INF) && p <= |m.subject.text|
    requires At(m.code, 0, QuantCode(Emit(a), min, max, false))
             && exit == 0 + Length(QuantCode(Emit(a), min, max, false))
    requires Decode(m.code, exit) == None && p in Matches(a, m.subject, p)
             && (max == INF ==> LastEmpty(a, m.subject, p))
    ensures !From(m, 0, p, [], exit, [], NO_CAPTURE, Rep(a, min, max, false, m.subject, p))
  {
    hide At, Decode, Emit, Length, Matches, Realizes, QuantCode, Rep, LazyOffers, Offers, LastEmpty;
    var ends, c := Rep(a, min, max, false, m.subject, p), Run(0, p, [], NO_CAPTURE, []);
    if max == INF {
      UnboundedOffersNothing(m, 0, a, min, p, [], NO_CAPTURE, ends);
      assert !Offers(m, c, exit, [], NO_CAPTURE, [], ends);
    } else {
      var ends' := LazyOffers(a, min, max, m.subject, p);
      BoundedFrom(m, 0, a, min, max, p, [], NO_CAPTURE);
      LongerOffers(a, min, max, m.subject, p);
      assert Offers(m, c, exit, [], NO_CAPTURE, [], ends');
      if Offers(m, c, exit, [], NO_CAPTURE, [], ends) {
        OffersUnique(m, c, exit, [], NO_CAPTURE, ends, ends');
      }
    }
  }

  lemma LongerOffers(a: Regex, min: nat, max: nat, s: Subject, p: nat)
    requires p <= |s.text| && min < max < INF && p in Matches(a, s, p)
    ensures |Rep(a, min, max, false, s, p)| < |LazyOffers(a, min, max, s, p)|
  {
    hide Matches, Rep, Times, Unchecked;
    LazyLonger(a, min, max, s, p);
  }

  /** A condition on the pattern that is enough on every text. */
  lemma {:induction false} AdvancesFit(r: Regex, s: Subject)
    requires LazyAdvances(r)
    ensures LazyFits(r, s)
    decreases r
  {
    hide Matches, MinWidth;
    match r {
      case Seq(a, b) =>
        AdvancesFit(a, s);
        AdvancesFit(b, s);
      case Alt(a, b) =>
        AdvancesFit(a, s);
        AdvancesFit(b, s);
      case Look(_, a) =>
        AdvancesFit(a, s);
      case Quant(a, min, max, greedy) =>
        AdvancesFit(a, s);
        if MinWidth(a) > 0 {
          forall p: nat | p <= |s.text|
            ensures p !in Matches(a, s, p)
          {
            MinWidthSound(a, s, p);
          }
        }
      case _ =>
    }
  }

  // A text on which the interpreter never halts.

  /** (?:)*?a */
  const LAZY_EMPTY := Seq(Quant(Empty, 0, INF, false), Char(97))

  const NO_TEXT := Subject([], false)

  lemma LazyProgram(i: Instr, j: Instr, k: Instr, l: Instr, tail: seq<Instr>)
    requires i == ISaveStart(0) && j == ISplitGotoFirst(5) && k == IGoto(-10) && l == IChar(97)
    requires tail == [ISaveEnd(0)] + [IMatch]
    ensures Program(LAZY_EMPTY, true) == [i] + ([j] + ([k] + ([l] + tail)))
    ensures Size(i) == 2 && Size(j) == 5 && Size(k) == 5
  {
    assert Emit(Quant(Empty, 0, INF, false)) == StarCode([], false) == [j] + [k];
  }

  lemma LazyCode(code: seq<byte>, pc: nat)
    requires At(code, pc, Program(LAZY_EMPTY, true))
    ensures Decode(code, pc) == Some(ISaveStart(0)) && Decode(code, pc + 2) == Some(ISplitGotoFirst(5))
    ensures Decode(code, pc + 7) == Some(IGoto(-10)) && Decode(code, pc + 12) == Some(IChar(97))
  {
    hide *;
    var i, j, k, l := ISaveStart(0), ISplitGotoFirst(5), IGoto(-10), IChar(97);
    var tail := [ISaveEnd(0)] + [IMatch];
    LazyProgram(i, j, k, l, tail);
    var r3 := [l] + tail;
    var r2 := [k] + r3;
    var r1 := [j] + r2;
    AtCons(code, pc, i, r1);
    AtCons(code, pc + 2, j, r2);
    AtCons(code, pc + 7, k, r3);
    AtCons(code, pc + 12, l, tail);
  }

  lemma {:induction false} LoopsForEver(m: Machine, pc: nat, cap: seq<Option<nat>>, n: nat)
    requires m.subject == NO_TEXT && Decode(m.code, pc) == Some(ISplitGotoFirst(5))
    requires Decode(m.code, pc + 5) == Some(IGoto(-10)) && Decode(m.code, pc + 10) == Some(IChar(97))
    ensures !Halted(Steps(m, n, Run(pc, 0, [], cap, [])))
    decreases n
  {
    hide Decode;
    var f := Frame(Split, 0, 0, pc + 5, cap, []);
    var c, d, e, g := Run(pc, 0, [], cap, []), Run(pc + 10, 0, [], cap, [f]), Fail([f]), Run(pc + 5, 0, [], cap, []);
    assert [f] + [] == [f] && [f][1..] == [];
    assert Step(m, c) == d && Step(m, d) == e && Step(m, e) == g && Step(m, g) == c;
    hide Step;
    if n >= 4 {
      LoopsForEver(m, pc, cap, n - 4);
      assert Steps(m, n, c) == Steps(m, n - 1, d) == Steps(m, n - 2, e) == Steps(m, n - 3, g) == Steps(m, n - 4, c);
    } else {
      assert Steps(m, 0, c) == c && Steps(m, 0, d) == d && Steps(m, 0, e) == e && Steps(m, 0, g) == g;
      assert n > 0 ==> Steps(m, n, c) == Steps(m, n - 1, d);
      assert n > 1 ==> Steps(m, n - 1, d) == Steps(m, n - 2, e);
      assert n > 2 ==> Steps(m, n - 2, e) == Steps(m, n - 3, g);
    }
  }

  /** On the empty text the pattern has no match, but the interpreter never says so: after any number of
      steps it is still running. */
  lemma LazyNeverHalts(code: seq<byte>, pc: nat, n: nat)
    requires At(code, pc, Program(LAZY_EMPTY, true))
    ensures WellFormed(LAZY_EMPTY) && !LazyFits(LAZY_EMPTY, NO_TEXT)
    ensures Search(LAZY_EMPTY, NO_TEXT, 0, true) == NotFound
    ensures !Halted(Steps(Machine(code, NO_TEXT), n, Run(pc, 0, [], NO_CAPTURE, [])))
  {
    hide At, Decode, Step;
    LazyCode(code, pc);
    LazySearch();
    var m := Machine(code, NO_TEXT);
    var cap: seq<Option<nat>> := [Some(0), None];
    var c, d := Run(pc, 0, [], NO_CAPTURE, []), Run(pc + 2, 0, [], cap, []);
    StartStep(m, pc);
    if n > 0 {
      LoopsForEver(m, pc + 2, cap, n - 1);
      assert Steps(m, n, c) == Steps(m, n - 1, d);
    } else {
      assert Steps(m, 0, c) == c;
    }
  }

  lemma StartStep(m: Machine, pc: nat)
    requires Decode(m.code, pc) == Some(ISaveStart(0))
    ensures Step(m, Run(pc, 0, [], NO_CAPTURE, [])) == Run(pc + 2, 0, [], [Some(0), None], [])
  {
    hide Decode;
    assert NO_CAPTURE[0 := Some(0)] == [Some(0), None];
  }

  lemma LazySearch()
    ensures Search(LAZY_EMPTY, NO_TEXT, 0, true) == NotFound
  {
    var q := Quant(Empty, 0, INF, false);
    assert Matches(Empty, NO_TEXT, 0) == [0];
    assert [0][1..] == [];
    assert RepEach(Empty, 0, INF, false, NO_TEXT, 0, [0]) == [];
    assert Matches(q, NO_TEXT, 0) == [0];
    assert Matches(Char(97), NO_TEXT, 0) == [];
    assert SeqEach(Char(97), NO_TEXT, 0, [0]) == [];
  }

  // A text on which another match is reported.

  const A := Char(97)

  /** (?:|a|aaa) */
  const BODY := Alt(Alt(Empty, A), Seq(A, Seq(A, A)))

  /** (?=aa$|a$) */
  const AHEAD := Look(false, Alt(Seq(A, Seq(A, LineEnd)), Seq(A, LineEnd)))

  /** (?:|a|aaa){0,2}?(?=aa$|a$) */
  const LAZY_WRONG := Seq(Quant(BODY, 0, 2, false), AHEAD)

  const FOUR := Subject([97, 97, 97, 97], false)

  lemma LetterAt(p: nat)
    requires p <= 4
    ensures Matches(A, FOUR, p) == if p < 4 then [p + 1] else []
  {}

  lemma ThenOne(r: Regex, p: nat, q: nat)
    requires p <= q <= 4
    ensures SeqEach(r, FOUR, p, [q]) == Matches(r, FOUR, q) && SeqEach(r, FOUR, p, []) == []
  {
    hide Matches;
    assert [q][1..] == [];
    assert Matches(r, FOUR, q) + [] == Matches(r, FOUR, q);
  }

  lemma LetterThen(r: Regex, p: nat)
    requires p <= 4
    ensures Matches(Seq(A, r), FOUR, p) == if p < 4 then Matches(r, FOUR, p + 1) else []
  {
    LetterAt(p);
    MatchesSeq(A, r, FOUR, p);
    if p < 4 {
      ThenOne(r, p, p + 1);
    } else {
      ThenOne(r, p, p);
    }
  }

  lemma BodyAt(p: nat)
    requires p <= 4
    ensures Matches(BODY, FOUR, p) == [p] + (if p < 4 then [p + 1] else []) + (if p < 2 then [p + 3] else [])
  {
    LetterThen(Seq(A, A), p);
    if p < 4 {
      LetterThen(A, p + 1);
      if p < 3 {
        LetterAt(p + 2);
      }
    }
    LetterAt(p);
  }

  lemma AheadAt(p: nat)
    requires p <= 4
    ensures Matches(AHEAD, FOUR, p) == if p == 2 || p == 3 then [p] else []
  {
    LetterThen(Seq(A, LineEnd), p);
    LetterThen(LineEnd, p);
    if p < 4 {
      LetterThen(LineEnd, p + 1);
      EndAt(p + 1);
      if p < 3 {
        EndAt(p + 2);
      }
    }
  }

  lemma EndAt(p: nat)
    requires p <= 4
    ensures Matches(LineEnd, FOUR, p) == if p == 4 then [p] else []
  {}

  /** A list that begins with skipped positions and one that is kept. */
  lemma {:induction false} FirstKept(k: nat -> seq<nat>, skipped: seq<nat>, q: nat, rest: seq<nat>)
    requires (forall i :: 0 <= i < |skipped| ==> k(skipped[i]) == []) && k(q) == [q]
    ensures Each(k, skipped + [q] + rest) == [q] + Each(k, rest)
    decreases |skipped|
  {
    if skipped == [] {
      assert skipped + [q] + rest == [q] + rest && ([q] + rest)[1..] == rest;
    } else {
      var all := skipped + [q] + rest;
      assert all[1..] == skipped[1..] + [q] + rest;
      FirstKept(k, skipped[1..], q, rest);
    }
  }

  lemma EachThree(k: nat -> seq<nat>, x: nat, y: nat, z: nat)
    ensures Each(k, [x, y, z]) == k(x) + (k(y) + k(z))
  {
    assert [x, y, z][1..] == [y, z] && [y, z][1..] == [z] && [z][1..] == [];
    assert Each(k, [z]) == k(z) + [];
  }

  /** The standard tries 0, 1, 2 first. */
  lemma StandardOrder() returns (rest: seq<nat>)
    ensures Rep(BODY, 0, 2, false, FOUR, 0) == [0, 1] + [2] + rest
  {
    hide Matches, Rep, ThenRound, Each, Decrement, BODY;
    var first := StandardRound();
    BodyAt(0);
    assert Matches(BODY, FOUR, 0) == [0, 1, 3];
    var j := ThenRound(BODY, 0, 2, false, FOUR, 0);
    RepUnfold(BODY, 0, 2, false, FOUR, 0);
    EachThree(j, 0, 1, 3);
    OptionalRound(BODY, 2, false, FOUR, 0, 1);
    RefusedRound(BODY, 2, FOUR, 0);
    Decremented();
    Reassociate(0, 1, 2, first, j(3));
    rest := first + j(3);
  }

  lemma Decremented()
    ensures Decrement(2) == 1 && Decrement(1) == 0
  {}

  lemma RefusedRound(a: Regex, max: nat, s: Subject, p: nat)
    ensures ThenRound(a, 0, max, false, s, p)(p) == []
  {}

  lemma StandardRound() returns (rest: seq<nat>)
    ensures Rep(BODY, 0, 1, false, FOUR, 1) == [1] + ([] + ([2] + rest))
  {
    hide Matches, Rep, ThenRound, Each, Decrement, BODY;
    Decremented();
    BodyAt(1);
    assert Matches(BODY, FOUR, 1) == [1, 2, 4];
    var k := ThenRound(BODY, 0, 1, false, FOUR, 1);
    RepUnfold(BODY, 0, 1, false, FOUR, 1);
    EachThree(k, 1, 2, 4);
    OptionalRound(BODY, 1, false, FOUR, 1, 2);
    RefusedRound(BODY, 1, FOUR, 1);
    rest := k(4);
  }

  lemma Reassociate(x: nat, y: nat, z: nat, r: seq<nat>, t: seq<nat>)
    ensures [x] + ([] + (([y] + ([] + ([z] + r))) + t)) == [x, y] + [z] + (r + t)
  {}

  /** The code tries 0, 0, 0, 1, 3 first. */
  lemma CodeOrder() returns (rest: seq<nat>)
    ensures Unchecked(BODY, 2, FOUR, 0) == [0, 0, 0, 1] + [3] + rest
  {
    hide Matches, Unchecked, Each, BODY;
    CodeRound();
    BodyAt(0);
    assert Matches(BODY, FOUR, 0) == [0, 1, 3];
    var j := ThenUnchecked(BODY, 1, FOUR);
    UncheckedUnfold(BODY, 2, FOUR, 0);
    EachThree(j, 0, 1, 3);
    rest := j(1) + j(3);
    Regroup(j(1) + j(3));
  }

  lemma Regroup(t: seq<nat>)
    ensures [0] + ([0, 0, 1, 3] + t) == [0, 0, 0, 1] + [3] + t
  {}

  lemma CodeRound()
    ensures Unchecked(BODY, 1, FOUR, 0) == [0, 0, 1, 3]
  {
    hide Matches, Unchecked, Each, BODY;
    BodyAt(0);
    assert Matches(BODY, FOUR, 0) == [0, 1, 3];
    var k := ThenUnchecked(BODY, 0, FOUR);
    UncheckedUnfold(BODY, 1, FOUR, 0);
    UncheckedNone(BODY, FOUR, 0);
    UncheckedNone(BODY, FOUR, 1);
    UncheckedNone(BODY, FOUR, 3);
    EachThree(k, 0, 1, 3);
  }

  lemma WrongParts()
    ensures WellFormed(LAZY_WRONG) && SubjectOk(FOUR) && LazyFits(BODY, FOUR) && LazyFits(AHEAD, FOUR)
    ensures !LazyFits(LAZY_WRONG, FOUR)
  {
    BodyAt(0);
    hide Matches;
    assert 0 in Matches(BODY, FOUR, 0);
  }

  /** On the text aaaa the standard finds the match that ends at 2, the interpreter reports 3. */
  lemma LazyWrongMatch(code: seq<byte>, pc: nat)
    requires At(code, pc, Program(LAZY_WRONG, true))
    ensures WellFormed(LAZY_WRONG) && !LazyFits(LAZY_WRONG, FOUR) && Search(LAZY_WRONG, FOUR, 0, true) == FoundAt(0, 2)
    ensures Reaches(Machine(code, FOUR), Run(pc, 0, [], NO_CAPTURE, []), Matched([Some(0), Some(3)]))
  {
    hide At, Decode, Matches, Reaches, Tail, SubjectOk, LazyFits, Program;
    WrongParts();
    ProgramLayout(code, pc, LAZY_WRONG, true);
    WrongStandard();
    WrongRun(Machine(code, FOUR), pc);
  }

  lemma WrongStandard()
    ensures Search(LAZY_WRONG, FOUR, 0, true) == FoundAt(0, 2)
  {
    hide Matches, Rep, SeqEach;
    var q := Quant(BODY, 0, 2, false);
    var rest := StandardOrder();
    MatchesQuant(BODY, 0, 2, false, FOUR, 0);
    MatchesSeq(q, AHEAD, FOUR, 0);
    SeqEachIsEach(AHEAD, FOUR, 0, Matches(q, FOUR, 0));
    AheadAt(0);
    AheadAt(1);
    AheadAt(2);
    FirstKept(ThenMatch(AHEAD, FOUR), [0, 1], 2, rest);
  }

  lemma WrongRun(m: Machine, pc: nat)
    requires m.subject == FOUR && WellFormed(LAZY_WRONG) && At(m.code, pc, Tail(LAZY_WRONG))
    ensures Reaches(m, Run(pc, 0, [], NO_CAPTURE, []), Matched([Some(0), Some(3)]))
  {
    hide At, Decode, Matches, Reaches, Tail, SubjectOk, LazyFits, Emit, Length, Realizes, Unchecked, Offers, BODY,
        AHEAD;
    WrongParts();
    TailAt(m.code, pc, LAZY_WRONG);
    WrongFrom(m, pc + 2);
    hide From, Each;
    CodeFirst();
    var ends := Each(ThenMatch(AHEAD, FOUR), Unchecked(BODY, 2, FOUR, 0));
    FromOffers(m, pc + 2, 0, [], pc + 2 + Length(Emit(LAZY_WRONG)), [], [Some(0), None], ends);
    TailFinds(m, pc, LAZY_WRONG, 0, [], ends);
  }

  lemma FromOffers(m: Machine, pc: nat, p: nat, stack: seq<int>, exit: nat, stack': seq<int>, cap: seq<Option<nat>>,
                   ends: seq<nat>)
    requires From(m, pc, p, stack, exit, stack', cap, ends)
    ensures Offers(m, Run(pc, p, stack, cap, []), exit, stack', cap, [], ends)
  {
    hide Offers;
  }

  lemma CodeFirst()
    ensures
      var ends := Each(ThenMatch(AHEAD, FOUR), Unchecked(BODY, 2, FOUR, 0));
      ends != [] && ends[0] == 3 && Forward(FOUR, 0, ends)
  {
    hide Matches, Unchecked, Each;
    var rest := CodeOrder();
    AheadAt(0);
    AheadAt(1);
    AheadAt(3);
    var k := ThenMatch(AHEAD, FOUR);
    FirstKept(k, [0, 0, 0, 1], 3, rest);
    EachWithin(k, Unchecked(BODY, 2, FOUR, 0));
  }

  lemma {:induction false} EachWithin(k: nat -> seq<nat>, starts: seq<nat>)
    requires k == ThenMatch(AHEAD, FOUR)
    ensures Forward(FOUR, 0, Each(k, starts))
  {
    hide Matches;
    if starts != [] {
      EachWithin(k, starts[1..]);
      if starts[0] <= 4 {
        assert Forward(FOUR, starts[0], Matches(AHEAD, FOUR, starts[0]));
      }
    }
  }

  lemma {:induction false} UncheckedForward(n: nat, p: nat)
    requires p <= 4
    ensures Forward(FOUR, p, Unchecked(BODY, n, FOUR, p))
    decreases n
  {
    hide Matches;
    if n > 0 {
      UncheckedUnfold(BODY, n, FOUR, p);
      var k := ThenUnchecked(BODY, n - 1, FOUR);
      forall q | p <= q <= 4
        ensures Forward(FOUR, q, k(q))
      {
        UncheckedForward(n - 1, q);
      }
      EachForward(k, FOUR, p, Matches(BODY, FOUR, p));
    }
  }

  lemma WrongFrom(m: Machine, pc: nat)
    requires m.subject == FOUR && WellFormed(LAZY_WRONG) && At(m.code, pc, Emit(LAZY_WRONG))
    ensures From(m, pc, 0, [], pc + Length(Emit(LAZY_WRONG)), [], [Some(0), None],
                 Each(ThenMatch(AHEAD, FOUR), Unchecked(BODY, 2, FOUR, 0)))
  {
    hide At, Decode, Matches, SubjectOk, LazyFits, Length, Realizes, Unchecked, From, QuantCode;
    WrongParts();
    var cap: seq<Option<nat>> := [Some(0), None];
    var q := Quant(BODY, 0, 2, false);
    AtAppend(m.code, pc, Emit(q), Emit(AHEAD));
    hide Emit;
    QuantEmit(BODY, 0, 2);
    BodyRealized(m, BODY);
    BoundedFrom(m, pc, BODY, 0, 2, 0, [], cap);
    TimesNone(BODY, FOUR, 0, ThenUnchecked(BODY, 2, FOUR));
    var mid := pc + Length(Emit(q));
    EmitImplements(m, mid, AHEAD);
    UncheckedForward(2, 0);
    EachFrom(m, pc, 0, [], mid, [], mid + Length(Emit(AHEAD)), [], cap, ThenMatch(AHEAD, FOUR), 0,
             Unchecked(BODY, 2, FOUR, 0));
  }
}
