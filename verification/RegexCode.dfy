/** The bytecode of the regular expression engine (libregexp-opcode.h): instructions, their encoding and
    the decoding the interpreter performs. Jumps are relative to the end of their 4-byte operand. */
module RegexCode {
  import opened Byte

  const U32: int := 0x1_0000_0000

  datatype Instr =
    | IChar(c: int)
    | IChar32(c: int)
    | IDot
    | IAny
    | ILineStart
    | ILineEnd
    | IGoto(off: int)
    | ISplitGotoFirst(off: int)
    | ISplitNextFirst(off: int)
    | IMatch
    | ISaveStart(k: int)
    | ISaveEnd(k: int)
    | ILoop(off: int)
    | IPush(v: int)
    | IDrop
    | IWord(negated: bool)
    | IRange(pairs: seq<(int, int)>)
    | IRange32(pairs: seq<(int, int)>)
    | ILook(negated: bool, off: int)
    | IPushPos
    | ICheckAdvance
    | IGreedy(next: int, min: int, max: int, width: int)

  /** Instructions that consume one character. */
  predicate IsCharOp(i: Instr) {
    i.IChar? || i.IChar32? || i.IDot? || i.IAny? || i.IRange? || i.IRange32?
  }

  /** Instructions that only test the position. */
  predicate IsAssertion(i: Instr) {
    i.ILineStart? || i.ILineEnd? || i.IWord?
  }

  predicate OffOk(off: int) {
    -0x8000_0000 <= off < 0x8000_0000
  }

  /** Operands fit their fields. */
  predicate InstrOk(i: Instr) {
    match i
    case IChar(c) => 0 <= c < 0x1_0000
    case IChar32(c) => 0 <= c < U32
    case IGoto(off) => OffOk(off)
    case ISplitGotoFirst(off) => OffOk(off)
    case ISplitNextFirst(off) => OffOk(off)
    case ISaveStart(k) => 0 <= k < 256
    case ISaveEnd(k) => 0 <= k < 256
    case ILoop(off) => OffOk(off)
    case IPush(v) => 0 <= v < U32
    case IRange(pairs) => |pairs| < 0x1_0000 && forall j :: 0 <= j < |pairs| ==> PairOk(pairs[j], 0x1_0000)
    case IRange32(pairs) => |pairs| < 0x1_0000 && forall j :: 0 <= j < |pairs| ==> PairOk(pairs[j], U32)
    case ILook(_, off) => OffOk(off)
    case IGreedy(next, min, max, width) => OffOk(next) && 0 <= min < U32 && 0 <= max < U32 && 0 <= width < U32
    case _ => true
  }

  predicate PairOk(p: (int, int), bound: int) {
    0 <= p.0 < bound && 0 <= p.1 < bound
  }

  function PutU16(v: int): (b: seq<byte>)
    ensures |b| == 2
  {
    [v % 256, v / 256 % 256]
  }

  function PutU32(v: int): (b: seq<byte>)
    ensures |b| == 4
  {
    [v % 256, v / 256 % 256, v / 0x1_0000 % 256, v / 0x100_0000 % 256]
  }

  function GetU16(code: seq<byte>, p: nat): int
    requires p + 2 <= |code|
  {
    (code[p] as int) + 256 * (code[p + 1] as int)
  }

  function GetU32(code: seq<byte>, p: nat): int
    requires p + 4 <= |code|
  {
    (code[p] as int) + 256 * (code[p + 1] as int) + 0x1_0000 * (code[p + 2] as int) + 0x100_0000 * (code[p + 3] as int)
  }

  /** The (int) conversion of a stored operand. */
  function Signed(v: int): int {
    if v >= 0x8000_0000 then v - U32 else v
  }

  function GetOff(code: seq<byte>, p: nat): int
    requires p + 4 <= |code|
  {
    Signed(GetU32(code, p))
  }

  lemma RoundTrip16(v: int)
    requires 0 <= v < 0x1_0000
    ensures GetU16(PutU16(v), 0) == v
  {}

  lemma RoundTrip32(v: int)
    requires 0 <= v < U32
    ensures GetU32(PutU32(v), 0) == v
  {
    assert v / 0x1_0000 == v / 256 / 256;
    assert v / 0x100_0000 == v / 0x1_0000 / 256;
  }

  lemma PutWraps(v: int)
    ensures PutU32(v + U32) == PutU32(v)
  {
    DigitWraps(v, 0x100_0000);
    DigitWraps(v / 256, 0x1_0000);
    DigitWraps(v / 0x1_0000, 256);
    DigitWraps(v / 0x100_0000, 1);
    assert (v + U32) / 256 == v / 256 + 256 * 0x1_0000;
    assert (v + U32) / 0x1_0000 == v / 0x1_0000 + 256 * 256;
    assert (v + U32) / 0x100_0000 == v / 0x100_0000 + 256;
  }

  lemma DigitWraps(x: int, k: int)
    ensures (x + 256 * k) % 256 == x % 256
  {
    assert x + 256 * k == 256 * (x / 256 + k) + x % 256;
  }

  /** Storing and loading a jump offset is lossless: it is written modulo 2^32 and read back signed. */
  lemma OffsetRoundTrip(v: int)
    requires OffOk(v)
    ensures GetOff(PutU32(v), 0) == v
  {
    if v < 0 {
      PutWraps(v);
      RoundTrip32(v + U32);
    } else {
      RoundTrip32(v);
    }
  }

  /** A part of a byte string that stands at p. */
  lemma Part(code: seq<byte>, p: nat, b: seq<byte>, i: nat, j: nat)
    requires p + |b| <= |code| && code[p..p + |b|] == b
    requires i <= j <= |b|
    ensures code[p + i..p + j] == b[i..j]
  {
    forall k | 0 <= k < j - i
      ensures code[p + i..p + j][k] == b[i..j][k]
    {
      assert code[p..p + |b|][i + k] == b[i + k];
    }
  }

  function PutPairs(pairs: seq<(int, int)>, wide: bool): (b: seq<byte>)
    ensures |b| == |pairs| * (if wide then 8 else 4)
  {
    if pairs == [] then []
    else
      (if wide then PutU32(pairs[0].0) + PutU32(pairs[0].1) else PutU16(pairs[0].0) + PutU16(pairs[0].1))
      + PutPairs(pairs[1..], wide)
  }

  function GetPairs(code: seq<byte>, p: nat, n: nat, wide: bool): (pairs: seq<(int, int)>)
    requires p + n * (if wide then 8 else 4) <= |code|
    ensures |pairs| == n
    decreases n
  {
    if n == 0 then []
    else if wide then [(GetU32(code, p), GetU32(code, p + 4))] + GetPairs(code, p + 8, n - 1, wide)
    else [(GetU16(code, p), GetU16(code, p + 2))] + GetPairs(code, p + 4, n - 1, wide)
  }

  function Opcode(i: Instr): byte {
    match i
    case IChar(_) => 1
    case IChar32(_) => 2
    case IDot => 3
    case IAny => 4
    case ILineStart => 5
    case ILineEnd => 6
    case IGoto(_) => 7
    case ISplitGotoFirst(_) => 8
    case ISplitNextFirst(_) => 9
    case IMatch => 10
    case ISaveStart(_) => 11
    case ISaveEnd(_) => 12
    case ILoop(_) => 14
    case IPush(_) => 15
    case IDrop => 16
    case IWord(negated) => if negated then 18 else 17
    case IRange(_) => 21
    case IRange32(_) => 22
    case ILook(negated, _) => if negated then 24 else 23
    case IPushPos => 25
    case ICheckAdvance => 26
    case IGreedy(_, _, _, _) => 28
  }

  function Operands(i: Instr): seq<byte> {
    match i
    case IChar(c) => PutU16(c)
    case IChar32(c) => PutU32(c)
    case IGoto(off) => PutU32(off)
    case ISplitGotoFirst(off) => PutU32(off)
    case ISplitNextFirst(off) => PutU32(off)
    case ISaveStart(k) => [k % 256]
    case ISaveEnd(k) => [k % 256]
    case ILoop(off) => PutU32(off)
    case IPush(v) => PutU32(v)
    case IRange(pairs) => PutU16(|pairs|) + PutPairs(pairs, false)
    case IRange32(pairs) => PutU16(|pairs|) + PutPairs(pairs, true)
    case ILook(_, off) => PutU32(off)
    case IGreedy(next, min, max, width) => PutU32(next) + PutU32(min) + PutU32(max) + PutU32(width)
    case _ => []
  }

  function Encode(i: Instr): seq<byte> {
    [Opcode(i)] + Operands(i)
  }

  /** The length of an instruction: the opcode table plus the variable part of the ranges. */
  function Size(i: Instr): (n: nat)
    ensures n == |Encode(i)| && n >= 1
  {
    match i
    case IChar(_) => 3
    case IChar32(_) => 5
    case IGoto(_) => 5
    case ISplitGotoFirst(_) => 5
    case ISplitNextFirst(_) => 5
    case ISaveStart(_) => 2
    case ISaveEnd(_) => 2
    case ILoop(_) => 5
    case IPush(_) => 5
    case IRange(pairs) => 3 + 4 * |pairs|
    case IRange32(pairs) => 3 + 8 * |pairs|
    case ILook(_, _) => 5
    case IGreedy(_, _, _, _) => 17
    case _ => 1
  }

  datatype Option<T> = None | Some(value: T)

  /** The fixed part of each opcode's length (reopcode_info). */
  function OpSize(op: byte): nat {
    if op in [1] then 3
    else if op in [2, 7, 8, 9, 14, 15, 23, 24] then 5
    else if op in [11, 12, 19, 20] then 2
    else if op in [13, 21, 22] then 3
    else if op == 28 then 17
    else 1
  }

  /** What the interpreter reads at p; None for the opcodes outside this model and for truncated code. */
  function Decode(code: seq<byte>, p: nat): Option<Instr> {
    if p >= |code| || p + OpSize(code[p]) > |code| then None
    else
      var op := code[p];
      var q := p + 1;
      if op == 1 then Some(IChar(GetU16(code, q)))
      else if op == 2 then Some(IChar32(GetU32(code, q)))
      else if op == 3 then Some(IDot)
      else if op == 4 then Some(IAny)
      else if op == 5 then Some(ILineStart)
      else if op == 6 then Some(ILineEnd)
      else if op == 7 then Some(IGoto(GetOff(code, q)))
      else if op == 8 then Some(ISplitGotoFirst(GetOff(code, q)))
      else if op == 9 then Some(ISplitNextFirst(GetOff(code, q)))
      else if op == 10 then Some(IMatch)
      else if op == 11 then Some(ISaveStart(code[q]))
      else if op == 12 then Some(ISaveEnd(code[q]))
      else if op == 14 then Some(ILoop(GetOff(code, q)))
      else if op == 15 then Some(IPush(GetU32(code, q)))
      else if op == 16 then Some(IDrop)
      else if op == 17 || op == 18 then Some(IWord(op == 18))
      else if op == 21 || op == 22 then
        var n, wide := GetU16(code, q), op == 22;
        if q + 2 + n * (if wide then 8 else 4) > |code| then None
        else if wide then Some(IRange32(GetPairs(code, q + 2, n, true)))
        else Some(IRange(GetPairs(code, q + 2, n, false)))
      else if op == 23 || op == 24 then Some(ILook(op == 24, GetOff(code, q)))
      else if op == 25 then Some(IPushPos)
      else if op == 26 then Some(ICheckAdvance)
      else if op == 28 then Some(IGreedy(GetOff(code, q), GetU32(code, q + 4), GetU32(code, q + 8),
                                         GetU32(code, q + 12)))
      else None
  }

  lemma GetAt(code: seq<byte>, p: nat, v: int)
    ensures p + 2 <= |code| && code[p..p + 2] == PutU16(v) && 0 <= v < 0x1_0000 ==> GetU16(code, p) == v
    ensures p + 4 <= |code| && code[p..p + 4] == PutU32(v) && 0 <= v < U32 ==> GetU32(code, p) == v
    ensures p + 4 <= |code| && code[p..p + 4] == PutU32(v) && OffOk(v) ==> GetOff(code, p) == v
  {
    hide PutU16, PutU32;
    if p + 4 <= |code| {
      assert GetU32(code, p) == GetU32(code[p..p + 4], 0);
    }
    if p + 2 <= |code| {
      assert GetU16(code, p) == GetU16(code[p..p + 2], 0);
    }
    if 0 <= v < 0x1_0000 {
      RoundTrip16(v);
    }
    if 0 <= v < U32 {
      RoundTrip32(v);
    }
    if OffOk(v) {
      OffsetRoundTrip(v);
    }
  }

  lemma {:induction false} GetPairsAt(code: seq<byte>, p: nat, pairs: seq<(int, int)>, wide: bool)
    requires p + |PutPairs(pairs, wide)| <= |code| && code[p..p + |PutPairs(pairs, wide)|] == PutPairs(pairs, wide)
    requires forall j :: 0 <= j < |pairs| ==> PairOk(pairs[j], if wide then U32 else 0x1_0000)
    ensures GetPairs(code, p, |pairs|, wide) == pairs
    decreases |pairs|
  {
    if pairs != [] {
      hide PutU16, PutU32;
      var w := if wide then 4 else 2;
      var b := PutPairs(pairs, wide);
      assert PairOk(pairs[0], if wide then U32 else 0x1_0000);
      Part(code, p, b, 0, w);
      Part(code, p, b, w, 2 * w);
      Part(code, p, b, 2 * w, |b|);
      assert b[2 * w..] == PutPairs(pairs[1..], wide);
      GetAt(code, p, pairs[0].0);
      GetAt(code, p + w, pairs[0].1);
      GetPairsAt(code, p + 2 * w, pairs[1..], wide);
    }
  }

  /** Opcode and operands of i stand at p. */
  ghost predicate Stands(code: seq<byte>, p: nat, i: Instr) {
    && p + Size(i) <= |code| && code[p] == Opcode(i)
    && code[p + 1..p + Size(i)] == Operands(i)
  }

  predicate IsJump(i: Instr) {
    i.IGoto? || i.ISplitGotoFirst? || i.ISplitNextFirst? || i.ILoop? || i.ILook?
  }

  predicate IsPlain(i: Instr) {
    i.IDot? || i.IAny? || i.ILineStart? || i.ILineEnd? || i.IMatch? || i.IDrop? || i.IWord? || i.IPushPos?
      || i.ICheckAdvance?
  }

  lemma DecodeJump(code: seq<byte>, p: nat, i: Instr)
    requires InstrOk(i) && Stands(code, p, i) && IsJump(i)
    ensures Decode(code, p) == Some(i)
  {
    hide PutU32, GetU32, GetOff;
    GetAt(code, p + 1, i.off);
  }

  lemma DecodePlain(code: seq<byte>, p: nat, i: Instr)
    requires Stands(code, p, i) && IsPlain(i)
    ensures Decode(code, p) == Some(i)
  {}

  lemma DecodeOperand(code: seq<byte>, p: nat, i: Instr)
    requires InstrOk(i) && Stands(code, p, i)
    requires i.IChar? || i.IChar32? || i.IPush? || i.ISaveStart? || i.ISaveEnd?
    ensures Decode(code, p) == Some(i)
  {
    hide PutU16, PutU32, GetU16, GetU32;
    match i {
      case IChar(c) => GetAt(code, p + 1, c);
      case IChar32(c) => GetAt(code, p + 1, c);
      case IPush(v) => GetAt(code, p + 1, v);
      case ISaveStart(k) => assert code[p + 1] == code[p + 1..p + 2][0];
      case ISaveEnd(k) => assert code[p + 1] == code[p + 1..p + 2][0];
    }
  }

  lemma DecodeWide(code: seq<byte>, p: nat, i: Instr)
    requires InstrOk(i) && Stands(code, p, i)
    requires i.IRange? || i.IRange32? || i.IGreedy?
    ensures Decode(code, p) == Some(i)
  {
    hide PutU16, PutU32, GetU16, GetU32, GetOff, PutPairs, GetPairs;
    match i {
      case IRange(pairs) => DecodeRange(code, p, pairs, false);
      case IRange32(pairs) => DecodeRange(code, p, pairs, true);
      case IGreedy(next, min, max, width) => DecodeGreedy(code, p, next, min, max, width);
    }
  }

  /** Decoding what was encoded gives the instruction back. */
  lemma DecodeEncode(code: seq<byte>, p: nat, i: Instr)
    requires InstrOk(i) && p + Size(i) <= |code| && code[p..p + Size(i)] == Encode(i)
    ensures Decode(code, p) == Some(i)
  {
    hide Operands, Decode, InstrOk;
    var e := Encode(i);
    assert code[p] == code[p..p + Size(i)][0] == e[0];
    Part(code, p, e, 1, |e|);
    assert e[1..|e|] == Operands(i);
    if IsJump(i) {
      DecodeJump(code, p, i);
    } else if IsPlain(i) {
      DecodePlain(code, p, i);
    } else if i.IRange? || i.IRange32? || i.IGreedy? {
      DecodeWide(code, p, i);
    } else {
      DecodeOperand(code, p, i);
    }
  }

  lemma DecodeRange(code: seq<byte>, p: nat, pairs: seq<(int, int)>, wide: bool)
    requires InstrOk(if wide then IRange32(pairs) else IRange(pairs))
    requires p + 3 + |PutPairs(pairs, wide)| <= |code|
    requires code[p + 1..p + 3 + |PutPairs(pairs, wide)|] == PutU16(|pairs|) + PutPairs(pairs, wide)
    ensures GetU16(code, p + 1) == |pairs|
    ensures GetPairs(code, p + 3, |pairs|, wide) == pairs
  {
    hide PutU16, PutPairs;
    var o := PutU16(|pairs|) + PutPairs(pairs, wide);
    Part(code, p + 1, o, 0, 2);
    Part(code, p + 1, o, 2, |o|);
    GetAt(code, p + 1, |pairs|);
    GetPairsAt(code, p + 3, pairs, wide);
  }

  lemma DecodeGreedy(code: seq<byte>, p: nat, next: int, min: int, max: int, width: int)
    requires InstrOk(IGreedy(next, min, max, width)) && p + 17 <= |code|
    requires code[p + 1..p + 17] == PutU32(next) + PutU32(min) + PutU32(max) + PutU32(width)
    ensures GetOff(code, p + 1) == next && GetU32(code, p + 5) == min
    ensures GetU32(code, p + 9) == max && GetU32(code, p + 13) == width
  {
    hide PutU32;
    var o := PutU32(next) + PutU32(min) + PutU32(max) + PutU32(width);
    Part(code, p + 1, o, 0, 4);
    Part(code, p + 1, o, 4, 8);
    Part(code, p + 1, o, 8, 12);
    Part(code, p + 1, o, 12, 16);
    GetAt(code, p + 1, next);
    GetAt(code, p + 5, min);
    GetAt(code, p + 9, max);
    GetAt(code, p + 13, width);
  }

  // Instruction lists as byte strings.

  function Length(prog: seq<Instr>): (n: nat) {
    if prog == [] then 0 else Size(prog[0]) + Length(prog[1..])
  }

  function Bytes(prog: seq<Instr>): (b: seq<byte>)
    ensures |b| == Length(prog)
  {
    if prog == [] then [] else Encode(prog[0]) + Bytes(prog[1..])
  }

  lemma {:induction false} BytesConcat(a: seq<Instr>, b: seq<Instr>)
    ensures Bytes(a + b) == Bytes(a) + Bytes(b) && Length(a + b) == Length(a) + Length(b)
  {
    if a == [] {
      assert a + b == b;
    } else {
      assert (a + b)[1..] == a[1..] + b;
      BytesConcat(a[1..], b);
    }
  }

  predicate CodeOk(prog: seq<Instr>) {
    forall j :: 0 <= j < |prog| ==> InstrOk(prog[j])
  }

  /** The byte string of prog stands at p. */
  ghost predicate At(code: seq<byte>, p: nat, prog: seq<Instr>) {
    CodeOk(prog) && p + Length(prog) <= |code| && code[p..p + Length(prog)] == Bytes(prog)
  }

  lemma AtSplit(code: seq<byte>, p: nat, a: seq<Instr>, b: seq<Instr>)
    requires At(code, p, a + b)
    ensures At(code, p, a) && At(code, p + Length(a), b)
  {
    hide Bytes, Length, InstrOk;
    BytesConcat(a, b);
    CodeOkSplit(a, b);
    Part(code, p, Bytes(a) + Bytes(b), 0, Length(a));
    Part(code, p, Bytes(a) + Bytes(b), Length(a), Length(a) + Length(b));
  }

  lemma CodeOkSplit(a: seq<Instr>, b: seq<Instr>)
    ensures CodeOk(a + b) <==> CodeOk(a) && CodeOk(b)
  {
    hide InstrOk;
    assert forall j :: 0 <= j < |a| ==> a[j] == (a + b)[j];
    assert forall j :: 0 <= j < |b| ==> b[j] == (a + b)[|a| + j];
  }

  lemma AtFetch(code: seq<byte>, p: nat, prog: seq<Instr>)
    requires At(code, p, prog) && prog != []
    ensures Decode(code, p) == Some(prog[0])
  {
    assert [prog[0]] + prog[1..] == prog;
    AtSplit(code, p, [prog[0]], prog[1..]);
    assert Bytes([prog[0]]) == Encode(prog[0]);
    assert Length([prog[0]]) == Size(prog[0]);
    DecodeEncode(code, p, prog[0]);
  }

  lemma Cut<T>(prog: seq<T>, j: nat)
    requires j < |prog|
    ensures prog == prog[..j] + [prog[j]] + prog[j + 1..] && prog == prog[..j + 1] + prog[j + 1..] && |prog[..j]| == j
  {}

  lemma LengthIs(prog: seq<Instr>)
    ensures |Bytes(prog)| == Length(prog)
  {}
}
