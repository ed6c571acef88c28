/** Range instructions: the bounds of every emitted class are sorted, so the interpreter's binary search
    decides membership. */
module RegexRange {
  import opened Byte
  import opened RegexSyntax
  import opened RegexCode
  import opened RegexEmit
  import opened RegexVm

  // Classes are sorted.

  /** Increasing, non-overlapping bounds; the last upper bound may stand for infinity. */
  ghost predicate PairsSorted(pairs: seq<(int, int)>) {
    && |pairs| > 0
    && (forall i :: 0 <= i < |pairs| - 1 ==> pairs[i].0 <= pairs[i].1)
    && (forall i, j :: 0 <= i < j < |pairs| ==> pairs[i].1 < pairs[j].0 && pairs[i].0 < pairs[j].0)
  }

  ghost predicate RangesSorted(prog: seq<Instr>) {
    forall j :: 0 <= j < |prog| ==> RangeSorted(prog[j])
  }

  ghost predicate RangeSorted(i: Instr) {
    && (i.IRange? ==> PairsSorted(i.pairs) && |i.pairs| < 0x1_0000)
    && (i.IRange32? ==> PairsSorted(i.pairs) && |i.pairs| < 0x1_0000)
  }

  lemma ClassSorted(points: seq<nat>)
    requires ClassOk(points) && |points| / 2 < 65535
    ensures RangeSorted(EmitClass(points))
  {
    var n := |points| / 2;
    if n > 0 {
      forall i, j | 0 <= i < j < n
        ensures points[2 * i] < points[2 * i + 1] < points[2 * j] && points[2 * i + 1] < points[|points| - 1]
      {
      }
    }
  }

  lemma SortedConcat(a: seq<Instr>, b: seq<Instr>)
    requires RangesSorted(a) && RangesSorted(b)
    ensures RangesSorted(a + b)
  {
    hide RangeSorted;
  }

  lemma QuantSorted(a: seq<Instr>, min: nat, max: nat, greedy: bool)
    requires RangesSorted(a) && min <= max
    ensures RangesSorted(QuantCode(a, min, max, greedy))
  {
    hide Length, NeedCheck, SimpleCount, Guarded, MandatoryCode, OptionalCode, CountChars, PairsSorted;
    var g := Guarded(a, greedy && NeedCheck(a));
    GuardSorted(a, greedy && NeedCheck(a));
    MandatorySorted(a, min);
    OptionalSorted(g, greedy, min, max);
    SortedConcat(MandatoryCode(a, min), OptionalCode(g, greedy, min, max));
  }

  lemma GuardSorted(a: seq<Instr>, check: bool)
    requires RangesSorted(a)
    ensures RangesSorted(Guarded(a, check))
  {
    hide PairsSorted;
  }

  lemma MandatorySorted(a: seq<Instr>, min: nat)
    requires RangesSorted(a)
    ensures RangesSorted(MandatoryCode(a, min))
  {
    hide Length, PairsSorted;
  }

  lemma OptionalSorted(g: seq<Instr>, greedy: bool, min: nat, max: nat)
    requires RangesSorted(g) && min <= max
    ensures RangesSorted(OptionalCode(g, greedy, min, max))
  {
    hide Length, PairsSorted;
  }

  lemma {:induction false} EmitSorted(r: Regex)
    requires WellFormed(r)
    ensures RangesSorted(Emit(r))
    decreases r
  {
    hide Length, QuantCode, PairsSorted, EmitClass;
    match r {
      case Class(points) => ClassSorted(points);
      case Seq(a, b) =>
        EmitSorted(a);
        EmitSorted(b);
        SortedConcat(Emit(a), Emit(b));
      case Alt(a, b) =>
        EmitSorted(a);
        EmitSorted(b);
      case Look(_, a) => EmitSorted(a);
      case Quant(a, min, max, greedy) =>
        EmitSorted(a);
        QuantSorted(Emit(a), min, max, greedy);
      case _ =>
    }
  }

  lemma ProgramSorted(r: Regex, sticky: bool)
    requires WellFormed(r)
    ensures RangesSorted(Program(r, sticky))
  {
    hide Emit, PairsSorted;
    EmitSorted(r);
  }

  // The class test.

  lemma {:induction false} PairAt32(code: seq<byte>, p: nat, n: nat, i: nat)
    requires p + 8 * n <= |code| && i < n
    ensures GetPairs(code, p, n, true)[i] == (GetU32(code, p + 8 * i), GetU32(code, p + 8 * i + 4))
    decreases n
  {
    hide GetU32;
    if i > 0 {
      PairAt32(code, p + 8, n - 1, i - 1);
    }
  }

  lemma {:induction false} PairAt16(code: seq<byte>, p: nat, n: nat, i: nat)
    requires p + 4 * n <= |code| && i < n
    ensures GetPairs(code, p, n, false)[i] == (GetU16(code, p + 4 * i), GetU16(code, p + 4 * i + 2))
    decreases n
  {
    hide GetU16;
    if i > 0 {
      PairAt16(code, p + 4, n - 1, i - 1);
    }
  }

  function GetLow(code: seq<byte>, p: nat, i: nat, wide: bool): int
    requires p + (i + 1) * (if wide then 8 else 4) <= |code|
  {
    if wide then GetU32(code, p + 8 * i) else GetU16(code, p + 4 * i)
  }

  function GetHigh(code: seq<byte>, p: nat, i: nat, wide: bool): int
    requires p + (i + 1) * (if wide then 8 else 4) <= |code|
  {
    if wide then GetU32(code, p + 8 * i + 4) else GetU16(code, p + 4 * i + 2)
  }

  lemma BoundsAt(code: seq<byte>, p: nat, n: nat, wide: bool, i: nat)
    requires p + n * (if wide then 8 else 4) <= |code| && i < n
    ensures p + (i + 1) * (if wide then 8 else 4) <= |code|
    ensures GetPairs(code, p, n, wide)[i] == (GetLow(code, p, i, wide), GetHigh(code, p, i, wide))
  {
    hide GetU16, GetU32, GetPairs;
    if wide {
      PairAt32(code, p, n, i);
    } else {
      PairAt16(code, p, n, i);
    }
  }

  /** REOP_range and REOP_range32: binary search in the bounds stored at p. */
  method RangeTest(code: seq<byte>, p: nat, n: nat, wide: bool, c: nat) returns (hit: bool)
    requires p + n * (if wide then 8 else 4) <= |code| && PairsSorted(GetPairs(code, p, n, wide))
    ensures hit == RangeHit(GetPairs(code, p, n, wide), wide, c)
  {
    hide GetPairs, GetLow, GetHigh;
    ghost var pairs := GetPairs(code, p, n, wide);
    BoundsAt(code, p, n, wide, 0);
    BoundsAt(code, p, n, wide, n - 1);
    var low := GetLow(code, p, 0, wide);
    if c < low {
      return false;
    }
    var idxMin, idxMax := 0, n - 1;
    var high := GetHigh(code, p, idxMax, wide);
    if !wide && c >= 0xffff && high == 0xffff {
      return true;
    }
    if c > high {
      return false;
    }
    while idxMin <= idxMax
      invariant 0 <= idxMin <= n && -1 <= idxMax < n
      invariant forall i :: 0 <= i < idxMin ==> pairs[i].1 < c
      invariant forall i :: idxMax < i < n ==> c < pairs[i].0
      decreases idxMax - idxMin + 1
    {
      var idx := (idxMin + idxMax) / 2;
      BoundsAt(code, p, n, wide, idx);
      low := GetLow(code, p, idx, wide);
      high := GetHigh(code, p, idx, wide);
      if c < low {
        // the unsigned index does not wrap: c is not below the first bound
        assert idx > 0;
        idxMax := idx - 1;
      } else if c > high {
        idxMin := idx + 1;
      } else {
        return true;
      }
    }
    return false;
  }
}
