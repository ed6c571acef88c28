/** What the compiler's scans of emitted code say about matching: re_is_simple_quantifier finds atoms with
    a single outcome of fixed width, re_need_check_advance only clears atoms that always advance. */
module RegexScan {
  import opened RegexSyntax
  import opened RegexCode
  import opened RegexEmit
  import opened RegexVm

  /** All positions are at least p + w. */
  ghost predicate AtLeast(p: nat, w: nat, ends: seq<nat>) {
    forall i :: 0 <= i < |ends| ==> p + w <= ends[i]
  }

  // Sequencing and repetition keep lower bounds.

  lemma {:induction false} SeqEachAtLeast(b: Regex, s: Subject, p: nat, starts: seq<nat>, v: nat, w: nat)
    requires p <= |s.text| && Forward(s, p, starts) && AtLeast(p, v, starts)
    requires forall q :: p <= q <= |s.text| ==> AtLeast(q, w, Matches(b, s, q))
    ensures AtLeast(p, v + w, SeqEach(b, s, p, starts))
    decreases |starts|
  {
    if starts != [] {
      assert AtLeast(starts[0], w, Matches(b, s, starts[0]));
      SeqEachAtLeast(b, s, p, starts[1..], v, w);
    }
  }

  lemma {:induction false} RepEachAtLeast(a: Regex, min: nat, max: nat, greedy: bool, s: Subject, p: nat,
                                          starts: seq<nat>, w: nat)
    requires p <= |s.text| && Forward(s, p, starts) && AtLeast(p, w, starts)
    ensures AtLeast(p, w, RepEach(a, min, max, greedy, s, p, starts))
    decreases |starts|
  {
    if starts != [] {
      RepEachAtLeast(a, min, max, greedy, s, p, starts[1..], w);
    }
  }

  /** MinWidth is a lower bound on what a match consumes. */
  lemma {:induction false} MinWidthSound(r: Regex, s: Subject, p: nat)
    requires p <= |s.text|
    ensures AtLeast(p, MinWidth(r), Matches(r, s, p))
    decreases r
  {
    match r {
      case Seq(a, b) =>
        MinWidthSound(a, s, p);
        forall q | p <= q <= |s.text|
          ensures AtLeast(q, MinWidth(b), Matches(b, s, q))
        {
          MinWidthSound(b, s, q);
        }
        SeqEachAtLeast(b, s, p, Matches(a, s, p), MinWidth(a), MinWidth(b));
      case Alt(a, b) =>
        MinWidthSound(a, s, p);
        MinWidthSound(b, s, p);
      case Quant(a, min, max, greedy) =>
        if min > 0 && max > 0 {
          MinWidthSound(a, s, p);
          RepEachAtLeast(a, min, max, greedy, s, p, Matches(a, s, p), MinWidth(a));
        }
      case _ =>
    }
  }

  /** One mandatory round and no more is the body itself. */
  lemma {:induction false} RepOnce(a: Regex, greedy: bool, s: Subject, p: nat, starts: seq<nat>)
    requires p <= |s.text| && Forward(s, p, starts)
    ensures RepEach(a, 1, 1, greedy, s, p, starts) == starts
    decreases |starts|
  {
    if starts != [] {
      RepOnce(a, greedy, s, p, starts[1..]);
      assert starts == [starts[0]] + starts[1..];
    }
  }

  /** Neither kind of scan accepts code with an instruction that jumps. */
  ghost predicate StraightLine(prog: seq<Instr>) {
    forall j :: 0 <= j < |prog| ==> IsCharOp(prog[j]) || NoEffect(prog[j])
  }

  lemma StraightParts(a: seq<Instr>, b: seq<Instr>)
    requires StraightLine(a + b)
    ensures StraightLine(a) && StraightLine(b)
  {
    forall j | 0 <= j < |a|
      ensures IsCharOp(a[j]) || NoEffect(a[j])
    {
      assert a[j] == (a + b)[j];
    }
    forall j | 0 <= j < |b|
      ensures IsCharOp(b[j]) || NoEffect(b[j])
    {
      assert b[j] == (a + b)[|a| + j];
    }
  }

  lemma NotStraight(prog: seq<Instr>, j: nat)
    requires j < |prog| && !IsCharOp(prog[j]) && !NoEffect(prog[j])
    ensures !StraightLine(prog)
  {}

  /** The only repetitions with straight-line code are the empty one and the single round. */
  lemma StraightQuant(a: seq<Instr>, min: nat, max: nat, greedy: bool)
    requires min <= max <= INF
    ensures StraightLine(QuantCode(a, min, max, greedy)) ==>
              || (max == 0 && QuantCode(a, min, max, greedy) == [])
              || (min == max == 1 && QuantCode(a, min, max, greedy) == a)
  {
    hide Length, StraightLine, NeedCheck, SimpleCount, Guarded, CountChars;
    var q := QuantCode(a, min, max, greedy);
    if greedy && max > 0 && SimpleCount(a) > 0 {
      NotStraight(q, 0);
    } else if min == 0 {
      if max == 1 || max == INF {
        NotStraight(q, 0);
      } else if max > 0 {
        NotStraight(q, 1);
      }
    } else if min == 1 && max == INF && !(greedy && NeedCheck(a)) {
      NotStraight(q, |a|);
    } else if min == 1 {
      if max == INF {
        NotStraight(q, |a|);
      } else if max > 1 {
        NotStraight(q, |a| + 1);
      }
    } else {
      NotStraight(q, 1 + |a|);
    }
  }

  /** Alternatives and lookaheads are never straight-line code. */
  lemma StraightShape(r: Regex)
    requires WellFormed(r)
    ensures StraightLine(Emit(r)) ==> !r.Alt? && !r.Look?
  {
    hide Length, StraightLine;
    if r.Alt? {
      NotStraight(Emit(r), 0);
    } else if r.Look? {
      NotStraight(Emit(r), 0);
    }
  }

  ghost predicate HasChar(prog: seq<Instr>) {
    exists j :: 0 <= j < |prog| && IsCharOp(prog[j])
  }

  lemma HasCharSplit(a: seq<Instr>, b: seq<Instr>)
    requires HasChar(a + b)
    ensures HasChar(a) || HasChar(b)
  {
    var j :| 0 <= j < |a + b| && IsCharOp((a + b)[j]);
    if j < |a| {
      assert IsCharOp(a[j]);
    } else {
      assert IsCharOp(b[j - |a|]);
    }
  }

  /** Straight-line code with a character instruction advances. */
  lemma {:induction false} StraightAdvances(r: Regex, s: Subject, p: nat)
    requires WellFormed(r) && p <= |s.text| && StraightLine(Emit(r))
    ensures AtLeast(p, if HasChar(Emit(r)) then 1 else 0, Matches(r, s, p))
    decreases r
  {
    StraightShape(r);
    match r {
      case Seq(a, b) =>
        var v, w := if HasChar(Emit(a)) then 1 else 0, if HasChar(Emit(b)) then 1 else 0;
        StraightParts(Emit(a), Emit(b));
        StraightAdvances(a, s, p);
        forall q | p <= q <= |s.text|
          ensures AtLeast(q, w, Matches(b, s, q))
        {
          StraightAdvances(b, s, q);
        }
        SeqEachAtLeast(b, s, p, Matches(a, s, p), v, w);
        if HasChar(Emit(r)) {
          HasCharSplit(Emit(a), Emit(b));
        }
      case Alt(_, _) =>
      case Look(_, _) =>
      case Quant(a, min, max, greedy) =>
        StraightQuant(Emit(a), min, max, greedy);
        if max != 0 {
          StraightAdvances(a, s, p);
          RepOnce(a, greedy, s, p, Matches(a, s, p));
        }
      case _ =>
    }
  }

  /** re_need_check_advance is safe: when it says no check is needed, every match of the atom advances. */
  lemma NoCheckAdvances(r: Regex, s: Subject, p: nat)
    requires WellFormed(r) && p <= |s.text| && !NeedCheck(Emit(r))
    ensures AtLeast(p, 1, Matches(r, s, p))
  {
    StraightAdvances(r, s, p);
  }

  // Simple atoms.

  lemma SimpleIsStraight(prog: seq<Instr>)
    requires IsSimple(prog)
    ensures StraightLine(prog)
  {}

  lemma SimpleParts(a: seq<Instr>, b: seq<Instr>)
    requires IsSimple(a + b)
    ensures IsSimple(a) && IsSimple(b)
  {
    forall j | 0 <= j < |a|
      ensures IsCharOp(a[j]) || IsAssertion(a[j])
    {
      assert a[j] == (a + b)[j];
    }
    forall j | 0 <= j < |b|
      ensures IsCharOp(b[j]) || IsAssertion(b[j])
    {
      assert b[j] == (a + b)[|a| + j];
    }
  }

  lemma {:induction false} CountConcat(a: seq<Instr>, b: seq<Instr>)
    ensures CountChars(a + b) == CountChars(a) + CountChars(b)
  {
    if a == [] {
      assert a + b == b;
    } else {
      assert (a + b)[1..] == a[1..] + b;
      CountConcat(a[1..], b);
    }
  }

  /** A simple atom has at most one outcome, and it consumes exactly the counted characters. */
  lemma {:induction false} SimpleMatches(r: Regex, s: Subject, p: nat)
    requires WellFormed(r) && p <= |s.text| && IsSimple(Emit(r))
    ensures Matches(r, s, p) == [] || Matches(r, s, p) == [p + CountChars(Emit(r))]
    decreases r
  {
    hide Matches, CountChars, IsSimple, QuantCode;
    SimpleIsStraight(Emit(r));
    StraightShape(r);
    match r {
      case Seq(a, b) =>
        SimpleParts(Emit(a), Emit(b));
        SimpleMatches(a, s, p);
        CountConcat(Emit(a), Emit(b));
        MatchesSeq(a, b, s, p);
        SeqEachNone(b, s, p);
        if Matches(a, s, p) != [] {
          var q := Matches(a, s, p)[0];
          SimpleMatches(b, s, q);
          SeqEachOne(b, s, p, q);
        }
      case Alt(_, _) =>
      case Look(_, _) =>
      case Quant(a, min, max, greedy) =>
        StraightQuant(Emit(a), min, max, greedy);
        if max == 0 {
          MatchesNothing(a, min, greedy, s, p);
          CountNone();
        } else {
          SimpleMatches(a, s, p);
          MatchesOnce(a, greedy, s, p);
        }
      case _ =>
        OneInstr(r, s, p);
    }
  }

  lemma CountNone()
    ensures CountChars([]) == 0
  {}

  lemma SeqEachNone(b: Regex, s: Subject, p: nat)
    requires p <= |s.text|
    ensures SeqEach(b, s, p, []) == []
  {}

  lemma OneInstr(r: Regex, s: Subject, p: nat)
    requires WellFormed(r) && p <= |s.text| && !r.Seq? && !r.Alt? && !r.Look? && !r.Quant?
    ensures Matches(r, s, p) == [] || Matches(r, s, p) == [p + CountChars(Emit(r))]
  {
    if Emit(r) != [] {
      assert Emit(r)[1..] == [];
    }
  }

  lemma SeqEachOne(b: Regex, s: Subject, p: nat, q: nat)
    requires p <= q <= |s.text|
    ensures SeqEach(b, s, p, [q]) == Matches(b, s, q)
  {
    assert [q][1..] == [];
    assert Matches(b, s, q) + [] == Matches(b, s, q);
  }

  /** The inner run of the greedy instruction, started at pc, does what r does at p. */
  ghost predicate Follows(m: Machine, pc: nat, r: Regex, p: nat)
    requires WellFormed(r) && p <= |m.subject.text|
  {
    RunSimple(m, pc, p) ==
    (if Matches(r, m.subject, p) == [] then SimpleFail
     else RunSimple(m, pc + Length(Emit(r)), Matches(r, m.subject, p)[0]))
  }

  /** On simple code the inner run of the greedy instruction follows the semantics. */
  lemma {:induction false} RunSimpleEmit(m: Machine, pc: nat, r: Regex, p: nat)
    requires WellFormed(r) && p <= |m.subject.text| && IsSimple(Emit(r)) && At(m.code, pc, Emit(r))
    requires SubjectOk(m.subject)
    ensures Follows(m, pc, r, p)
    decreases r, 1
  {
    hide RunSimple, At, Follows, SubjectOk, IsSimple, Length, Emit, Matches, WellFormed;
    SimpleShape(r);
    if r.Empty? {
      FollowsEmpty(m, pc, p);
    } else if r.Seq? {
      SimpleParts(Emit(r.left), Emit(r.right));
      AtSplit(m.code, pc, Emit(r.left), Emit(r.right));
      RunSimpleSeq(m, pc, r.left, r.right, p);
    } else if r.Quant? && r.max == 0 {
      FollowsNothing(m, pc, r, p);
    } else if r.Quant? {
      RunSimpleEmit(m, pc, r.body, p);
      FollowsOnce(m, pc, r.body, r.greedy, p);
      assert r == Quant(r.body, 1, 1, r.greedy);
    } else {
      FollowsAtom(m, pc, r, p);
    }
  }

  /** One simple pattern after the other. */
  lemma {:induction false} RunSimpleSeq(m: Machine, pc: nat, a: Regex, b: Regex, p: nat)
    requires WellFormed(a) && WellFormed(b) && p <= |m.subject.text| && IsSimple(Emit(a)) && IsSimple(Emit(b))
    requires At(m.code, pc, Emit(a)) && At(m.code, pc + Length(Emit(a)), Emit(b)) && SubjectOk(m.subject)
    ensures WellFormed(Seq(a, b)) && Follows(m, pc, Seq(a, b), p)
    decreases Seq(a, b), 0
  {
    hide RunSimple, At, Follows, SubjectOk, IsSimple, Length, Emit, Matches, WellFormed;
    RunSimpleEmit(m, pc, a, p);
    SimpleMatches(a, m.subject, p);
    if Matches(a, m.subject, p) != [] {
      RunSimpleEmit(m, pc + Length(Emit(a)), b, Matches(a, m.subject, p)[0]);
    }
    FollowsSeq(m, pc, a, b, p);
  }

  /** What patterns with simple code look like. */
  lemma SimpleShape(r: Regex)
    requires WellFormed(r) && IsSimple(Emit(r))
    ensures !r.Alt? && !r.Look?
    ensures r.Seq? ==> WellFormed(r.left) && WellFormed(r.right) && Emit(r) == Emit(r.left) + Emit(r.right)
    ensures r.Quant? ==>
              WellFormed(r.body)
              && if r.max == 0 then Emit(r) == [] else r.min == 1 && r.max == 1 && Emit(r) == Emit(r.body)
  {
    SimpleIsStraight(Emit(r));
    StraightShape(r);
    hide StraightLine, IsSimple, QuantCode;
    if r.Quant? {
      StraightQuant(Emit(r.body), r.min, r.max, r.greedy);
    }
  }

  lemma FollowsEmpty(m: Machine, pc: nat, p: nat)
    requires p <= |m.subject.text|
    ensures Follows(m, pc, Empty, p)
  {
    hide RunSimple;
  }

  lemma MatchesNothing(a: Regex, min: nat, greedy: bool, s: Subject, p: nat)
    requires p <= |s.text|
    ensures Matches(Quant(a, min, 0, greedy), s, p) == [p]
  {}

  lemma MatchesOnce(a: Regex, greedy: bool, s: Subject, p: nat)
    requires p <= |s.text|
    ensures Matches(Quant(a, 1, 1, greedy), s, p) == Matches(a, s, p)
  {
    var starts := Matches(a, s, p);
    RepOnce(a, greedy, s, p, starts);
    assert Rep(a, 1, 1, greedy, s, p) == RepEach(a, 1, 1, greedy, s, p, starts);
  }

  lemma MatchesSeq(a: Regex, b: Regex, s: Subject, p: nat)
    requires p <= |s.text|
    ensures Matches(Seq(a, b), s, p) == SeqEach(b, s, p, Matches(a, s, p))
  {}

  lemma FollowsNothing(m: Machine, pc: nat, r: Regex, p: nat)
    requires p <= |m.subject.text| && WellFormed(r) && r.Quant? && r.max == 0 && Emit(r) == []
    ensures Follows(m, pc, r, p)
  {
    hide RunSimple, Emit, Matches, WellFormed;
    MatchesNothing(r.body, r.min, r.greedy, m.subject, p);
    assert r == Quant(r.body, r.min, 0, r.greedy);
  }

  lemma FollowsOnce(m: Machine, pc: nat, a: Regex, greedy: bool, p: nat)
    requires p <= |m.subject.text| && WellFormed(a) && WellFormed(Quant(a, 1, 1, greedy))
    requires Emit(Quant(a, 1, 1, greedy)) == Emit(a) && Follows(m, pc, a, p)
    ensures Follows(m, pc, Quant(a, 1, 1, greedy), p)
  {
    hide RunSimple, Emit, Matches, WellFormed;
    MatchesOnce(a, greedy, m.subject, p);
  }

  lemma EmitSeq(a: Regex, b: Regex)
    requires WellFormed(a) && WellFormed(b)
    ensures WellFormed(Seq(a, b)) && Emit(Seq(a, b)) == Emit(a) + Emit(b)
  {
    hide NeedCheck, SimpleCount;
  }

  lemma FollowsSeq(m: Machine, pc: nat, a: Regex, b: Regex, p: nat)
    requires p <= |m.subject.text| && WellFormed(a) && WellFormed(b)
    requires |Matches(a, m.subject, p)| <= 1 && Follows(m, pc, a, p)
    requires Matches(a, m.subject, p) != [] ==> Follows(m, pc + Length(Emit(a)), b, Matches(a, m.subject, p)[0])
    ensures WellFormed(Seq(a, b)) && Follows(m, pc, Seq(a, b), p)
  {
    hide RunSimple, Emit, Matches, WellFormed, Bytes, Length;
    EmitSeq(a, b);
    BytesConcat(Emit(a), Emit(b));
    MatchesSeq(a, b, m.subject, p);
    var starts := Matches(a, m.subject, p);
    if starts != [] {
      assert starts == [starts[0]];
      SeqEachOne(b, m.subject, p, starts[0]);
    }
  }

  lemma FollowsAtom(m: Machine, pc: nat, r: Regex, p: nat)
    requires p <= |m.subject.text| && WellFormed(r) && SubjectOk(m.subject) && At(m.code, pc, Emit(r))
    requires !r.Empty? && !r.Seq? && !r.Alt? && !r.Look? && !r.Quant?
    ensures Follows(m, pc, r, p)
  {
    hide RunSimple, At, SubjectOk, Emit, Matches, Accepts, Holds, Decode, WellFormed, Size, Length;
    AtomAgrees(r, m.subject, p);
    var i := Emit(r)[0];
    AtFetch(m.code, pc, Emit(r));
    RunSimpleInstr(m, pc, i, p);
    assert Emit(r) == [i];
    LengthOne(i);
  }

  lemma RunSimpleInstr(m: Machine, pc: nat, i: Instr, p: nat)
    requires p <= |m.subject.text| && Decode(m.code, pc) == Some(i)
    ensures IsCharOp(i) ==>
              RunSimple(m, pc, p) ==
              (if p < |m.subject.text| && Accepts(i, m.subject.text[p]) then RunSimple(m, pc + Size(i),
                  p + 1) else SimpleFail)
    ensures IsAssertion(i) ==>
              RunSimple(m, pc, p) == (if Holds(i, m.subject, p) then RunSimple(m, pc + Size(i), p) else SimpleFail)
    ensures i.IMatch? ==> RunSimple(m, pc, p) == SimpleEnd(p)
  {
    hide Accepts, Holds, Decode, Size;
  }

  /** Single instructions accept exactly what their syntax matches. */
  lemma AtomAgrees(r: Regex, s: Subject, p: nat)
    requires WellFormed(r) && p <= |s.text| && SubjectOk(s)
    requires !r.Empty? && !r.Seq? && !r.Alt? && !r.Look? && !r.Quant?
    ensures |Emit(r)| == 1
    ensures IsCharOp(Emit(r)[0]) ==>
              Matches(r, s, p) == (if p < |s.text| && Accepts(Emit(r)[0], s.text[p]) then [p + 1] else [])
    ensures !IsCharOp(Emit(r)[0]) ==>
              IsAssertion(Emit(r)[0]) && Matches(r, s, p) == (if Holds(Emit(r)[0], s, p) then [p] else [])
  {
    if r.Class? && p < |s.text| {
      ClassAgrees(r.points, s.text[p]);
    }
  }

  /** The encoded ranges of a class accept exactly its members: the inclusive upper bounds, the 16-bit
      infinity, the empty class, and the early tests against the first and last bound are all sound. */
  lemma ClassAgrees(points: seq<nat>, c: nat)
    requires ClassOk(points) && c <= 0x10_ffff
    ensures Accepts(EmitClass(points), c) <==> InClass(points, c)
  {
    var n := |points| / 2;
    if n > 0 {
      assert forall i :: 0 <= i < |points| ==> points[0] <= points[i] <= points[|points| - 1];
      if Fits16(points) {
        ClassAgrees16(points, c, seq(n, i requires 0 <= i < n => Pair16(points, i)));
      } else {
        ClassAgrees32(points, c, seq(n, i requires 0 <= i < n => Pair32(points, i)));
      }
    }
  }

  lemma ClassAgrees32(points: seq<nat>, c: nat, pairs: seq<(int, int)>)
    requires ClassOk(points) && |pairs| == |points| / 2 > 0 && c <= 0x10_ffff
    requires forall i :: 0 <= i < |pairs| ==> pairs[i] == Pair32(points, i)
    ensures RangeHit(pairs, true, c) <==> InClass(points, c)
  {
    if InClass(points, c) {
      var i :| 0 <= i < |points| / 2 && points[2 * i] <= c < points[2 * i + 1];
      assert pairs[i].0 <= c <= pairs[i].1;
      assert points[0] <= points[2 * i] && points[2 * i + 1] <= points[|points| - 1];
    }
    if RangeHit(pairs, true, c) {
      var i :| 0 <= i < |pairs| && pairs[i].0 <= c <= pairs[i].1;
      assert points[2 * i] <= c < points[2 * i + 1];
    }
  }

  lemma ClassAgrees16(points: seq<nat>, c: nat, pairs: seq<(int, int)>)
    requires ClassOk(points) && |pairs| == |points| / 2 > 0 && c <= 0x10_ffff && Fits16(points)
    requires forall i :: 0 <= i < |pairs| ==> pairs[i] == Pair16(points, i)
    ensures RangeHit(pairs, false, c) <==> InClass(points, c)
  {
    var last := |pairs| - 1;
    if InClass(points, c) {
      var i :| 0 <= i < |points| / 2 && points[2 * i] <= c < points[2 * i + 1];
      assert points[0] <= points[2 * i] && points[2 * i + 1] <= points[|points| - 1];
      assert i < last ==> points[2 * i + 1] < points[|points| - 1];
      assert pairs[i].0 <= c;
      assert c <= pairs[i].1 || (c >= 0xffff && i == last);
    }
    if RangeHit(pairs, false, c) {
      if c >= 0xffff && pairs[last].1 == 0xffff {
        assert points[2 * last] <= c < points[2 * last + 1];
      } else {
        var i :| 0 <= i < |pairs| && pairs[i].0 <= c <= pairs[i].1;
        assert points[2 * i] <= c < points[2 * i + 1];
      }
    }
  }
}
