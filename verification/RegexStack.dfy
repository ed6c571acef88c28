/** The linear scan that sizes the counter stack (libregexp.c compute_stack_size) is exact: in every state
    the interpreter can reach, the depth of the stack is the one the scan computes for the address. */
module RegexStack {
  import opened RegexSyntax
  import opened RegexCode
  import opened RegexEmit

  /** Effect of an instruction on the depth. */
  function Delta(i: Instr): int {
    match i
    case IPush(_) => 1
    case IPushPos => 1
    case IDrop => -1
    case ICheckAdvance => -1
    case _ => 0
  }

  /** Net effect of a straight scan. */
  function Net(prog: seq<Instr>): int {
    if prog == [] then 0 else Delta(prog[0]) + Net(prog[1..])
  }

  lemma {:induction false} NetConcat(a: seq<Instr>, b: seq<Instr>)
    ensures Net(a + b) == Net(a) + Net(b)
  {
    if a == [] {
      assert a + b == b;
    } else {
      assert (a + b)[1..] == a[1..] + b;
      NetConcat(a[1..], b);
    }
  }

  /** The greatest depth a scan that starts at depth d meets. */
  function Highest(prog: seq<Instr>, d: int): int {
    if prog == [] then d
    else
      var rest := Highest(prog[1..], d + Delta(prog[0]));
      if d > rest then d else rest
  }

  /** The scan is at depth d when it is at addr. */
  ghost predicate Boundary(prog: seq<Instr>, addr: int, d: int) {
    || (addr == 0 && d == 0)
    || (prog != [] && addr >= Size(prog[0]) && Boundary(prog[1..], addr - Size(prog[0]), d - Delta(prog[0])))
  }

  lemma {:induction false} BoundaryBefore(a: seq<Instr>, b: seq<Instr>, addr: int, d: int)
    requires Boundary(b, addr, d) && addr >= 0
    ensures Boundary(a + b, Length(a) + addr, Net(a) + d)
  {
    if a == [] {
      assert a + b == b;
    } else {
      assert (a + b)[1..] == a[1..] + b;
      BoundaryBefore(a[1..], b, addr, d);
    }
  }

  lemma {:induction false} BoundaryAfter(a: seq<Instr>, b: seq<Instr>, addr: int, d: int)
    requires Boundary(a, addr, d)
    ensures Boundary(a + b, addr, d)
  {
    if !(addr == 0 && d == 0) {
      assert (a + b)[1..] == a[1..] + b;
      BoundaryAfter(a[1..], b, addr - Size(a[0]), d - Delta(a[0]));
    }
  }

  lemma BoundaryHere(a: seq<Instr>, b: seq<Instr>)
    ensures Boundary(a + b, Length(a), Net(a))
  {
    BoundaryBefore(a, b, 0, 0);
  }

  lemma {:induction false} BoundaryNatural(prog: seq<Instr>, addr: int, d: int)
    requires Boundary(prog, addr, d)
    ensures addr >= 0
  {
    if !(addr == 0 && d == 0) {
      BoundaryNatural(prog[1..], addr - Size(prog[0]), d - Delta(prog[0]));
    }
  }

  /** The scan has one depth at an address. */
  lemma {:induction false} BoundaryUnique(prog: seq<Instr>, addr: int, d: int, e: int)
    requires Boundary(prog, addr, d) && Boundary(prog, addr, e)
    ensures d == e
  {
    if addr != 0 {
      BoundaryUnique(prog[1..], addr - Size(prog[0]), d - Delta(prog[0]), e - Delta(prog[0]));
    } else {
      BoundaryStart(prog, d);
      BoundaryStart(prog, e);
    }
  }

  lemma BoundaryStart(prog: seq<Instr>, d: int)
    requires Boundary(prog, 0, d)
    ensures d == 0
  {}

  /** A boundary is the start of an instruction, or the end. */
  lemma {:induction false} BoundaryIndex(prog: seq<Instr>, addr: int, d: int) returns (j: nat)
    requires Boundary(prog, addr, d)
    ensures j <= |prog| && addr == Length(prog[..j]) && d == Net(prog[..j])
    decreases |prog|
  {
    if addr == 0 && d == 0 {
      j := 0;
    } else {
      var k := BoundaryIndex(prog[1..], addr - Size(prog[0]), d - Delta(prog[0]));
      j := k + 1;
      assert prog[..j][1..] == prog[1..][..k];
    }
  }

  lemma {:induction false} HighestBounds(prog: seq<Instr>, d0: int, addr: int, d: int)
    requires Boundary(prog, addr, d)
    ensures d0 + d <= Highest(prog, d0)
    decreases |prog|
  {
    if !(addr == 0 && d == 0) {
      HighestBounds(prog[1..], d0 + Delta(prog[0]), addr - Size(prog[0]), d - Delta(prog[0]));
    }
  }

  predicate Jumps(i: Instr) {
    IsJump(i) || i.IGreedy?
  }

  function Offset(i: Instr): int
    requires Jumps(i)
  {
    if i.IGreedy? then i.next else i.off
  }

  predicate Pops(i: Instr) {
    i.ILoop? || i.IDrop? || i.ICheckAdvance?
  }

  /** Every jump of the j-th instruction lands on a boundary of the same depth, and nothing is popped from
      an empty stack. */
  ghost predicate InstrSafe(prog: seq<Instr>, j: nat)
    requires j < |prog|
  {
    && (Jumps(prog[j]) ==> Boundary(prog, Length(prog[..j + 1]) + Offset(prog[j]), Net(prog[..j + 1])))
    && (Pops(prog[j]) ==> Net(prog[..j]) >= 1)
  }

  /** Safe code that leaves the depth as it was. */
  ghost predicate Safe(prog: seq<Instr>) {
    Net(prog) == 0 && forall j: nat | j < |prog| :: InstrSafe(prog, j)
  }

  lemma Prefixes<T>(x: seq<T>, a: seq<T>, y: seq<T>, j: nat)
    requires j < |a|
    ensures (x + a + y)[|x| + j] == a[j]
    ensures (x + a + y)[..|x| + j] == x + a[..j] && (x + a + y)[..|x| + j + 1] == x + a[..j + 1]
  {}

  lemma EmbedInstr(x: seq<Instr>, a: seq<Instr>, y: seq<Instr>, j: nat)
    requires j < |a| && InstrSafe(a, j) && Net(x) >= 0
    ensures InstrSafe(x + a + y, |x| + j)
  {
    hide Boundary, Length, Net, Jumps, Offset, Pops, Bytes;
    var prog := x + a + y;
    Prefixes(x, a, y, j);
    BytesConcat(x, a[..j + 1]);
    NetConcat(x, a[..j + 1]);
    NetConcat(x, a[..j]);
    if Jumps(a[j]) {
      EmbedBoundary(x, a, y, Length(a[..j + 1]) + Offset(a[j]), Net(a[..j + 1]));
    }
  }

  lemma Around<T>(prog: seq<T>, x: seq<T>, i: T, y: seq<T>)
    requires prog == x + [i] + y
    ensures |x| < |prog| && prog[|x|] == i && prog[..|x|] == x && prog[..|x| + 1] == x + [i]
  {}

  lemma PrefixMeasure(prog: seq<Instr>, x: seq<Instr>, i: Instr, y: seq<Instr>)
    requires prog == x + [i] + y
    ensures |x| < |prog| && prog[|x|] == i && Net(prog[..|x|]) == Net(x)
    ensures Length(prog[..|x| + 1]) == Length(x) + Size(i) && Net(prog[..|x| + 1]) == Net(x) + Delta(i)
  {
    hide Length, Net, Delta, Bytes, Size;
    Around(prog, x, i, y);
    BytesConcat(x, [i]);
    NetConcat(x, [i]);
    LengthOne(i);
    NetOne(i);
  }

  /** The instruction i of the program x + [i] + y is safe if its jump leads to a boundary n of depth d. */
  lemma InstrAt(prog: seq<Instr>, x: seq<Instr>, i: Instr, y: seq<Instr>, n: int, d: int)
    requires prog == x + [i] + y && Boundary(prog, n, d)
    requires Jumps(i) ==> Length(x) + Size(i) + Offset(i) == n && Net(x) + Delta(i) == d
    requires Pops(i) ==> Net(x) >= 1
    ensures |x| < |prog| && InstrSafe(prog, |x|)
  {
    hide *;
    PrefixMeasure(prog, x, i, y);
    InstrSafeFrom(prog, |x|, i, n, d, Net(x));
  }

  lemma InstrSafeFrom(prog: seq<Instr>, j: nat, i: Instr, n: int, d: int, before: int)
    requires j < |prog| && prog[j] == i && Boundary(prog, n, d) && Net(prog[..j]) == before
    requires Jumps(i) ==> Length(prog[..j + 1]) + Offset(i) == n && Net(prog[..j + 1]) == d
    requires Pops(i) ==> before >= 1
    ensures InstrSafe(prog, j)
  {
    hide Boundary, Length, Net, Jumps, Offset, Pops, Delta;
  }

  lemma EmbedBoundary(x: seq<Instr>, a: seq<Instr>, y: seq<Instr>, addr: int, d: int)
    requires Boundary(a, addr, d)
    ensures Boundary(x + a + y, Length(x) + addr, Net(x) + d)
  {
    hide Boundary, Length, Net;
    BoundaryNatural(a, addr, d);
    BoundaryBefore(x, a, addr, d);
    BoundaryAfter(x + a, y, Length(x) + addr, Net(x) + d);
  }

  lemma Embed(x: seq<Instr>, a: seq<Instr>, y: seq<Instr>)
    requires Safe(a) && Net(x) >= 0
    ensures forall j: nat | |x| <= j < |x| + |a| :: InstrSafe(x + a + y, j)
  {
    hide InstrSafe;
    forall j: nat | |x| <= j < |x| + |a|
      ensures InstrSafe(x + a + y, j)
    {
      EmbedInstr(x, a, y, j - |x|);
    }
  }

  lemma SafeConcat(a: seq<Instr>, b: seq<Instr>)
    requires Safe(a) && Safe(b)
    ensures Safe(a + b)
  {
    hide InstrSafe, Net;
    NetNone();
    NetConcat(a, b);
    Embed([], a, b);
    Embed(a, b, []);
    assert [] + a + b == a + b == a + b + [];
  }

  lemma NetNone()
    ensures Net([]) == 0
  {}

  lemma NetOne(i: Instr)
    ensures Net([i]) == Delta(i)
  {}

  // Code around a body.

  lemma Measure(x: seq<Instr>, a: seq<Instr>, y: seq<Instr>)
    ensures Length([]) == 0 && Net([]) == 0
    ensures |x| == 1 ==> Length(x) == Size(x[0]) && Net(x) == Delta(x[0])
    ensures |y| == 1 ==> Length(y) == Size(y[0]) && Net(y) == Delta(y[0])
    ensures Length(x + a) == Length(x) + Length(a) && Net(x + a) == Net(x) + Net(a)
    ensures Length(x + a + y) == Length(x) + Length(a) + Length(y) && Net(x + a + y) == Net(x) + Net(a) + Net(y)
  {
    BytesConcat(x, a);
    NetConcat(x, a);
    BytesConcat(x + a, y);
    NetConcat(x + a, y);
  }

  lemma LookSafe(a: seq<Instr>, i: Instr)
    requires Safe(a) && (i.ILook? || i.IGreedy?) && Offset(i) == Length(a) + 1
    ensures Safe([i] + a + [IMatch])
  {
    hide InstrSafe, Net, Length;
    var prog := [i] + a + [IMatch];
    Measure([i], a, [IMatch]);
    Embed([i], a, [IMatch]);
    assert prog == [] + [i] + (a + [IMatch]) == prog + [] == ([i] + a) + [IMatch] + [];
    BoundaryHere(prog, []);
    InstrAt(prog, [], i, a + [IMatch], Length(prog), Net(prog));
    BoundaryHere(prog, []);
    InstrAt(prog, [i] + a, IMatch, [], Length(prog), Net(prog));
  }

  lemma GuardSafe(a: seq<Instr>)
    requires Safe(a)
    ensures Safe(Guarded(a, true))
  {
    hide InstrSafe, Net, Length;
    var x, y := [IPushPos], [ICheckAdvance];
    var prog := x + a + y;
    Measure(x, a, y);
    Embed(x, a, y);
    assert prog == [] + [IPushPos] + (a + y) == (x + a) + [ICheckAdvance] + [] == prog + [];
    BoundaryHere(prog, []);
    InstrAt(prog, [], IPushPos, a + y, Length(prog), Net(prog));
    BoundaryHere(prog, []);
    InstrAt(prog, x + a, ICheckAdvance, [], Length(prog), Net(prog));
  }

  lemma OptSafe(g: seq<Instr>, greedy: bool)
    requires Safe(g)
    ensures Safe(OptCode(g, greedy))
  {
    hide InstrSafe, Net, Length;
    var i := Branch(greedy, Length(g));
    var prog := [i] + g;
    Measure([i], g, []);
    Embed([i], g, []);
    assert [i] + g + [] == prog == [] + [i] + g == prog + [];
    BoundaryHere(prog, []);
    InstrAt(prog, [], i, g, Length(prog), Net(prog));
  }

  lemma StarSafe(g: seq<Instr>, greedy: bool)
    requires Safe(g)
    ensures Safe(StarCode(g, greedy))
  {
    hide InstrSafe, Net, Length;
    var i, k := Branch(greedy, Length(g) + 5), IGoto(-(Length(g) + 10));
    var prog := [i] + g + [k];
    Measure([i], g, [k]);
    Embed([i], g, [k]);
    assert prog == [] + [i] + (g + [k]) == prog + [] == ([i] + g) + [k] + [] == [] + prog;
    BoundaryHere(prog, []);
    InstrAt(prog, [], i, g + [k], Length(prog), Net(prog));
    BoundaryHere([], prog);
    InstrAt(prog, [i] + g, k, [], Length([]), Net([]));
  }

  lemma PlusSafe(a: seq<Instr>, greedy: bool)
    requires Safe(a)
    ensures Safe(PlusCode(a, greedy))
  {
    hide InstrSafe, Net, Length;
    var k := Branch(!greedy, -(Length(a) + 5));
    var prog := a + [k];
    Measure([], a, [k]);
    Embed([], a, [k]);
    assert [] + a + [k] == prog == [] + prog == a + [k] + [] && [] + a == a;
    BoundaryHere([], prog);
    InstrAt(prog, a, k, [], Length([]), Net([]));
  }

  lemma Regroup<T>(x: seq<T>, a: seq<T>, k: T, l: T)
    ensures
      var prog := x + a + [k] + [l];
      prog == x + a + ([k] + [l]) && prog == (x + a) + [k] + [l] && prog == (x + a + [k]) + [l] + []
    ensures |x + a + [k] + [l]| == |x| + |a| + 2
  {}

  lemma LoopMeasure(x: seq<Instr>, a: seq<Instr>, k: Instr)
    requires k.ILoop?
    ensures Length(x + a) == Length(x) + Length(a) && Net(x + a) == Net(x) + Net(a)
    ensures Net(x + a + [k]) == Net(x) + Net(a) && Net(x + a + [k] + [IDrop]) == Net(x) + Net(a) - 1
  {
    hide Length, Net;
    Measure(x, a, [k]);
    Measure(x + a, [k], [IDrop]);
  }

  /** A loop with its counter: x pushes it, the loop instruction jumps back to a boundary n after the push,
      drop pops the counter. */
  lemma LoopSafe(x: seq<Instr>, n: int, a: seq<Instr>, k: Instr)
    requires Safe(a) && Net(x) == 1 && k == ILoop(n - (Length(x) + Length(a) + 5))
    requires Boundary(x + a + [k] + [IDrop], n, 1)
    requires forall j: nat | j < |x| :: InstrSafe(x + a + [k] + [IDrop], j)
    ensures Safe(x + a + [k] + [IDrop])
  {
    hide InstrSafe, Net, Length, Boundary;
    var prog := x + a + [k] + [IDrop];
    Regroup(x, a, k, IDrop);
    LoopMeasure(x, a, k);
    Embed(x, a, [k] + [IDrop]);
    InstrAt(prog, x + a, k, [IDrop], n, 1);
    InstrAt(prog, x + a + [k], IDrop, [], n, 1);
  }

  lemma MandatorySafe(a: seq<Instr>, min: nat)
    requires Safe(a)
    ensures Safe(MandatoryCode(a, min))
  {
    hide InstrSafe, Net, Length;
    if min != 1 {
      var x, k := [IPush(min)], ILoop(-(Length(a) + 5));
      var prog := x + a + [k] + [IDrop];
      Measure(x, [], []);
      assert x + [] == x && prog == [] + [IPush(min)] + (a + [k] + [IDrop]) == prog + [];
      assert MandatoryCode(a, min) == prog;
      BoundaryHere(prog, []);
      InstrAt(prog, [], IPush(min), a + [k] + [IDrop], Length(prog), Net(prog));
      assert prog == x + (a + [k] + [IDrop]);
      BoundaryHere(x, a + [k] + [IDrop]);
      LoopSafe(x, Length(x), a, k);
    }
  }

  lemma CountedSafe(g: seq<Instr>, greedy: bool, max: nat)
    requires Safe(g)
    ensures Safe(CountedCode(g, greedy, max))
  {
    hide InstrSafe, Net, Length;
    var p, i, k := [IPush(max)], Branch(greedy, Length(g) + 5), ILoop(-(Length(g) + 10));
    var x := p + [i];
    var prog := x + g + [k] + [IDrop];
    Measure(p, [i], []);
    Measure([i], [], []);
    Measure(x, g, [k]);
    assert [i] + [] == [i] && x == p + [i] + [];
    assert CountedCode(g, greedy, max) == prog;
    assert prog == [] + [IPush(max)] + ([i] + g + [k] + [IDrop]) == prog + [];
    BoundaryHere(prog, []);
    InstrAt(prog, [], IPush(max), [i] + g + [k] + [IDrop], Length(prog), Net(prog));
    assert prog == p + [i] + (g + [k] + [IDrop]) == (x + g + [k]) + [IDrop];
    BoundaryHere(x + g + [k], [IDrop]);
    InstrAt(prog, p, i, g + [k] + [IDrop], Length(x + g + [k]), Net(x + g + [k]));
    assert prog == p + ([i] + g + [k] + [IDrop]);
    BoundaryHere(p, [i] + g + [k] + [IDrop]);
    LoopSafe(x, Length(p), g, k);
  }

  lemma AltSafe(a: seq<Instr>, b: seq<Instr>)
    requires Safe(a) && Safe(b)
    ensures Safe(AltCode(a, b))
  {
    hide InstrSafe, Net, Length;
    var i, k := ISplitNextFirst(Length(a) + 5), IGoto(Length(b));
    var x := [i] + a + [k];
    var prog := x + b;
    assert AltCode(a, b) == prog;
    Measure([i], a, [k]);
    Measure(x, b, []);
    Embed([i], a, [k] + b);
    Embed(x, b, []);
    assert prog == [i] + a + ([k] + b) == x + b + [] == [] + [i] + (a + [k] + b) == ([i] + a) + [k] + b;
    BoundaryHere(x, b);
    InstrAt(prog, [], i, a + [k] + b, Length(x), Net(x));
    BoundaryHere(prog, []);
    InstrAt(prog, [i] + a, k, b, Length(prog), Net(prog));
  }

  lemma AtomSafe(i: Instr)
    requires IsCharOp(i) || IsAssertion(i) || i.ISaveStart? || i.ISaveEnd?
    ensures Safe([i])
  {
    NetOne(i);
  }

  lemma QuantSafe(a: seq<Instr>, min: nat, max: nat, greedy: bool)
    requires Safe(a) && min <= max
    ensures Safe(QuantCode(a, min, max, greedy))
  {
    hide Safe, Length, CountChars, SimpleCount, NeedCheck;
    var g := Guarded(a, greedy && NeedCheck(a));
    if greedy && NeedCheck(a) {
      GuardSafe(a);
    }
    LookSafe(a, IGreedy(Length(a) + 1, min, max, CountChars(a)));
    PlusSafe(a, greedy);
    OptSafe(g, greedy);
    StarSafe(g, greedy);
    CountedSafe(g, greedy, max - min);
    CountedSafe(g, greedy, max);
    MandatorySafe(a, min);
    EmptySafe();
    SafeConcat(MandatoryCode(a, min), OptionalCode(g, greedy, min, max));
  }

  lemma EmptySafe()
    ensures Safe([])
  {}

  /** The code of every pattern is safe. */
  lemma {:induction false} EmitSafe(r: Regex)
    requires WellFormed(r)
    ensures Safe(Emit(r))
    decreases r
  {
    hide Safe, QuantCode;
    match r {
      case Empty => EmptySafe();
      case Seq(a, b) =>
        EmitSafe(a);
        EmitSafe(b);
        SafeConcat(Emit(a), Emit(b));
      case Alt(a, b) =>
        EmitSafe(a);
        EmitSafe(b);
        AltSafe(Emit(a), Emit(b));
      case Look(negated, a) =>
        EmitSafe(a);
        LookSafe(Emit(a), ILook(negated, Length(Emit(a)) + 1));
      case Quant(a, min, max, greedy) =>
        EmitSafe(a);
        QuantSafe(Emit(a), min, max, greedy);
      case _ => AtomSafe(Emit(r)[0]);
    }
  }
}
