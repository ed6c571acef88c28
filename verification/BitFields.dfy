/** Reading and writing bit fields of a limb array (libbf.c get_bits, put_bits). */
module BitFields {
  import opened Limbs
  import opened LimbArith
  import opened Bits

  // Division by powers of two.

  lemma DivDiv(x: nat, a: nat, b: nat)
    requires a > 0 && b > 0
    ensures a * b > 0 && x / (a * b) == (x / a) / b
  {
    MulMono(1, b, a);
    var q, r := x / a, x % a;
    var q', r' := q / b, q % b;
    assert x == q * a + r && q == q' * b + r';
    assert x == q' * (a * b) + (r' * a + r) by {
      MulDist(q' * b, r', a);
      assert q' * b * a == q' * (a * b);
    }
    MulMono(r' + 1, b, a);
    MulDist(r', 1, a);
    MulMono(0, r', a);
    DivModUnique(x, a * b, q', r' * a + r);
  }

  lemma {:induction false} P2Pow(i: nat)
    ensures P2(64 * i) == Pow(i)
  {
    if i > 0 {
      P2Pow(i - 1);
      P2Add(64 * (i - 1), 64);
      P2Limb();
    }
  }

  /** A value cut at limb i. */
  lemma DropLimbs(s: seq<limb>, i: nat)
    ensures Val(s) / Pow(i) == if i <= |s| then Val(s[i..]) else 0
  {
    hide Val, Pow;
    if i <= |s| {
      ValSplit(s, i);
      ValBound(s[..i]);
      DivModUnique(Val(s), Pow(i), Val(s[i..]), Val(s[..i]));
    } else {
      ValBound(s);
      PowMonotone(|s|, i);
      DivModUnique(Val(s), Pow(i), 0, Val(s));
    }
  }

  function LimbAt(s: seq<limb>, i: nat): limb {
    if i < |s| then s[i] else 0
  }

  /** The two limbs a field can touch. */
  lemma LowTwo(s: seq<limb>) returns (h: nat)
    ensures Val(s) == LimbAt(s, 0) + BASE * (LimbAt(s, 1) + BASE * h)
  {
    hide Val, Pow;
    if |s| == 0 {
      ValZeros(s);
      h := 0;
    } else if |s| == 1 {
      ValOne(s);
      h := 0;
    } else {
      assert s == [s[0]] + ([s[1]] + s[2..]);
      ValCons(s[0], [s[1]] + s[2..]);
      ValCons(s[1], s[2..]);
      h := Val(s[2..]);
    }
  }

  /** The 64 bits from bit p on. */
  lemma FieldOf(v: nat, a0: limb, a1: limb, h: nat, p: nat)
    requires v == a0 + BASE * (a1 + BASE * h) && 0 < p < 64
    ensures (v / P2(p)) % BASE == a0 / P2(p) + Mul(a1, P2(64 - p)) % BASE
  {
    hide P2;
    P2Split(p);
    FieldNumbers(v, a0, a1, h, P2(p), P2(64 - p), a0 / P2(p), a0 % P2(p));
  }

  lemma FieldNumbers(v: int, a0: int, a1: nat, h: nat, x: nat, y: nat, q: nat, r: nat)
    requires v == a0 + BASE * (a1 + BASE * h) && x * y == BASE && x >= 1 && y >= 1
    requires a0 == q * x + r && r < x && a0 < BASE
    ensures (v / x) % BASE == q + Mul(a1, y) % BASE
  {
    var w := q + a1 * y + (BASE * h) * y;
    FieldExpand(v, a0, a1, h, x, y, q, r, w);
    MulMono(0, a1, y);
    MulMono(0, BASE * h, y);
    DivModUnique(v, x, w, r);
    FieldSum(q, a1, y, h, x, w);
  }

  lemma FieldExpand(v: int, a0: int, a1: int, h: int, x: int, y: int, q: int, r: int, w: int)
    requires v == a0 + BASE * (a1 + BASE * h) && x * y == BASE && a0 == q * x + r
    requires w == q + a1 * y + (BASE * h) * y
    ensures v == w * x + r
  {
    MulDist(q + a1 * y, (BASE * h) * y, x);
    MulDist(q, a1 * y, x);
    assert a1 * y * x == a1 * (x * y);
    assert (BASE * h) * y * x == (BASE * h) * (x * y);
  }

  lemma FieldSum(q: nat, a1: nat, y: nat, h: nat, x: nat, w: nat)
    requires x * y == BASE && x >= 1 && y >= 1 && w == q + a1 * y + (BASE * h) * y && q * x < BASE
    ensures w % BASE == q + (a1 * y) % BASE
  {
    if q >= y {
      MulMono(y, q, x);
    }
    var k, t := (a1 * y) / BASE, (a1 * y) % BASE;
    var e, f := a1 / x, a1 % x;
    assert a1 == e * x + f;
    assert a1 * y == e * BASE + f * y by {
      MulDist(e * x, f, y);
      assert e * x * y == e * (x * y);
    }
    MulMono(f + 1, x, y);
    MulDist(f, 1, y);
    MulMono(0, f, y);
    DivModUnique(a1 * y, BASE, e, f * y);
    assert (BASE * h) * y == (h * y) * BASE;
    DivModUnique(w, BASE, e + h * y, q + f * y);
  }

  lemma QuotientNatural(a: nat, d: nat)
    requires d >= 1
    ensures a / d >= 0
  {}

  lemma DivModFacts(n: nat, d: nat)
    requires d >= 1
    ensures n / d >= 0 && 0 <= n % d < d && n == Mul(n / d, d) + n % d
  {}

  /** a >> p */
  function ShiftRight(a: nat, p: nat): nat {
    QuotientNatural(a, P2(p));
    a / P2(p)
  }

  /** The low 64 bits of a << p. */
  function ShiftLeft(a: nat, p: nat): limb {
    Mul(a, P2(p)) % BASE
  }

  /** What the code computes from the two limbs. */
  function TwoLimbs(a0: limb, a1: limb, p: nat): nat
    requires p < 64
  {
    if p == 0 then a0 else BitOr(ShiftRight(a0, p), ShiftLeft(a1, 64 - p))
  }

  lemma TwoLimbsOk(v: nat, a0: limb, a1: limb, h: nat, p: nat)
    requires v == a0 + BASE * (a1 + BASE * h) && p < 64
    ensures TwoLimbs(a0, a1, p) == (v / P2(p)) % BASE
  {
    hide BitOr, Mul;
    if p == 0 {
      assert P2(0) == 1;
      DivModUnique(v, BASE, a1 + BASE * h, a0);
    } else {
      FieldOf(v, a0, a1, h, p);
      OrShifted(a0, a1, p);
    }
  }

  /** The bits of a number from pos on, from the two limbs around pos. */
  lemma BitsAt(s: seq<limb>, pos: nat)
    ensures TwoLimbs(LimbAt(s, pos / 64), LimbAt(s, pos / 64 + 1), pos % 64) == (Val(s) / P2(pos)) % BASE
  {
    hide Val, Pow, P2, TwoLimbs;
    var i, p := pos / 64, pos % 64;
    var t := if i <= |s| then s[i..] else [];
    PositionSplit(s, t, pos, i, p);
    var h := LowTwo(t);
    assert LimbAt(t, 0) == LimbAt(s, i) && LimbAt(t, 1) == LimbAt(s, i + 1);
    TwoLimbsOk(Val(t), LimbAt(s, i), LimbAt(s, i + 1), h, p);
  }

  /** get_bits: the 64 bits of the number at bit position pos; beyond the array there are zeros. */
  method GetBits(tab: array<limb>, o: nat, len: nat, pos: nat) returns (r: limb)
    requires o + len <= tab.Length
    ensures r == (Val(tab[o..o + len]) / P2(pos)) % BASE
  {
    hide Val, P2, BitOr, Mul;
    var i, p := pos / 64, pos % 64;
    ghost var s := tab[o..o + len];
    BitsAt(s, pos);
    var a0: limb := if i < len then tab[o + i] else 0;
    assert a0 == LimbAt(s, i);
    if p == 0 {
      return a0;
    }
    var a1: limb := if i + 1 < len then tab[o + i + 1] else 0;
    assert a1 == LimbAt(s, i + 1);
    OrShifted(a0, a1, p);
    return BitOr(ShiftRight(a0, p), ShiftLeft(a1, 64 - p));
  }

  lemma PositionSplit(s: seq<limb>, t: seq<limb>, pos: nat, i: nat, p: nat)
    requires pos == 64 * i + p && t == if i <= |s| then s[i..] else []
    ensures Val(s) / P2(pos) == Val(t) / P2(p)
  {
    hide Val, Pow;
    DropLimbs(s, i);
    ValZeros([]);
    P2Pow(i);
    P2Add(64 * i, p);
    DivDiv(Val(s), Pow(i), P2(p));
  }

  /** Shifted parts of neighbouring limbs have no common bit. */
  lemma OrShifted(a0: limb, a1: limb, p: nat)
    requires 0 < p < 64
    ensures 0 <= Mul(a1, P2(64 - p)) % BASE < BASE && 0 <= a0 / P2(p)
    ensures BitOr(a0 / P2(p), Mul(a1, P2(64 - p)) % BASE) == a0 / P2(p) + Mul(a1, P2(64 - p)) % BASE < BASE
  {
    hide BitOr;
    P2Split(p);
    var x, y := P2(p), P2(64 - p);
    var q := a0 / x;
    if q >= y {
      MulMono(y, q, x);
    }
    ShiftedMultiple(a1, x, y);
    OrDisjoint(q, (a1 * y) % BASE, 64 - p);
    RoomAbove(q, (a1 * y) % BASE, x, y);
  }

  lemma ShiftedMultiple(a: nat, x: nat, y: nat)
    requires x * y == BASE && x >= 1 && y >= 1
    ensures ((a * y) % BASE) % y == 0 && (a * y) % BASE + y <= BASE
  {
    var e, f := a / x, a % x;
    assert a == e * x + f;
    assert a * y == e * BASE + f * y by {
      MulDist(e * x, f, y);
      assert e * x * y == e * (x * y);
    }
    MulMono(f + 1, x, y);
    MulDist(f, 1, y);
    MulMono(0, f, y);
    DivModUnique(a * y, BASE, e, f * y);
    DivModUnique(f * y, y, f, 0);
  }

  lemma RoomAbove(q: nat, m: nat, x: nat, y: nat)
    requires q < y && m + y <= BASE
    ensures q + m < BASE
  {}

  // Writing.

  /** One limb replaced. */
  lemma ValUpdate(s: seq<limb>, i: nat, x: limb)
    requires i < |s|
    ensures Val(s[i := x]) == Val(s) + Mul((x as int) - (s[i] as int), Pow(i))
  {
    hide Val, Pow;
    var a, b, b' := s[..i], s[i + 1..], s[i := x];
    assert s == (a + [s[i]]) + b && b' == (a + [x]) + b;
    ValConcat(a + [s[i]], b);
    ValConcat(a + [x], b);
    ValSnoc(a, s[i]);
    ValSnoc(a, x);
    MulDist(x, s[i], Pow(i));
  }

  /** A number below 2^pos has no bits in the limbs from there on. */
  lemma EmptyAbove(s: seq<limb>, i: nat, p: nat)
    requires p < 64 && i < |s| && Val(s) < P2(64 * i + p)
    ensures s[i] < P2(p) && (i + 1 < |s| ==> s[i + 1] == 0)
  {
    hide Val, Pow, P2, Mul;
    P2Pow(i);
    P2Add(64 * i, p);
    var t, v := s[i..], Val(s[i..]);
    ValSplit(s, i);
    BelowPart(Val(s), Val(s[..i]), v, Pow(i), P2(p), P2(64 * i + p));
    var h := LowTwo(t);
    SmallTop(v, t[0], LimbAt(t, 1), h, p);
  }

  lemma BelowPart(s: int, low: int, v: int, b: int, x: int, limit: int)
    requires s == low + Mul(b, v) && 0 <= low && s < limit && limit == b * x && b >= 1
    ensures v < x
  {
    if v >= x {
      MulMono(x, v, b);
    }
  }

  lemma SmallTop(v: nat, a0: limb, a1: limb, h: nat, p: nat)
    requires v == a0 + BASE * (a1 + BASE * h) && v < P2(p) && p < 64
    ensures a0 < P2(p) && a1 == 0
  {
    P2Split(p);
    var y := P2(64 - p);
    assert y == 2 * P2(63 - p);
    MulMono(2, y, P2(p));
    if a1 + BASE * h >= 1 {
      MulMono(1, a1 + BASE * h, BASE);
    }
  }

  /** The limbs of val << p. */
  lemma ShiftedVal(val: limb, p: nat)
    requires 0 < p < 64
    ensures val * P2(p) == ShiftLeft(val, p) + BASE * ShiftRight(val, 64 - p)
    ensures ShiftRight(val, 64 - p) < BASE && ShiftLeft(val, p) % P2(p) == 0 && ShiftLeft(val, p) + P2(p) <= BASE
  {
    hide P2;
    P2Split(p);
    ShiftedMultiple(val, P2(64 - p), P2(p));
    ShiftedSplit(val, P2(p), P2(64 - p));
    P2Split(64 - p);
  }

  lemma ShiftedSplit(val: nat, x: nat, y: nat)
    requires y * x == BASE && x >= 1 && y >= 1 && val < BASE
    ensures val * x == (val * x) % BASE + BASE * (val / y) && 0 <= val / y < BASE
  {
    var e, f := val / y, val % y;
    assert val == e * y + f;
    SplitExpand(val, e, y, f, x);
    MulMono(f + 1, y, x);
    MulDist(f, 1, x);
    MulMono(0, f, x);
    DivModUnique(val * x, BASE, e, f * x);
    if e >= BASE {
      MulMono(BASE, e, y);
    }
  }

  lemma SplitExpand(val: int, e: int, y: int, f: int, x: int)
    requires val == e * y + f && y * x == BASE
    ensures val * x == e * BASE + f * x
  {
    MulDist(e * y, f, x);
    assert e * y * x == e * (y * x);
  }

  /** What put_bits leaves in the array: val at position pos, cut off at the end of the array. */
  ghost function Put(s: seq<limb>, i: nat, lo: limb, hi: limb): (t: seq<limb>)
    ensures |t| == |s|
  {
    var s' := if i < |s| then s[i := (LimbAt(s, i) + lo) % BASE] else s;
    if i + 1 < |s| then s'[i + 1 := hi] else s'
  }

  lemma PutValue(s: seq<limb>, i: nat, p: nat, lo: limb, hi: limb, val: limb)
    requires p < 64 && Val(s) < P2(64 * i + p) && Mul(val, P2(p)) == lo + BASE * hi
    requires lo + P2(p) <= BASE && (p == 0 ==> hi == 0)
    ensures Val(Put(s, i, lo, hi)) == (Val(s) + Mul(val, P2(64 * i + p))) % Pow(|s|)
  {
    hide Val, Pow, P2;
    P2Pow(i);
    P2Add(64 * i, p);
    PowNext(i);
    PutArith(val, P2(p), lo, hi, Pow(i), Mul(val, P2(64 * i + p)));
    hide Mul;
    if i + 1 < |s| {
      PutInside(s, i, p, lo, hi);
    } else if i < |s| {
      PutAtEnd(s, i, p, lo, hi);
    } else {
      PutBeyond(s, i, lo, hi);
    }
  }

  /** The scaled value as two products. */
  ghost function Pieces(b: nat, lo: limb, hi: limb): nat {
    b * lo + b * BASE * hi
  }

  lemma PutInside(s: seq<limb>, i: nat, p: nat, lo: limb, hi: limb)
    requires p < 64 && i + 1 < |s| && Val(s) < P2(64 * i + p) && lo + P2(p) <= BASE
    ensures Val(Put(s, i, lo, hi)) == (Val(s) + Pieces(Pow(i), lo, hi)) % Pow(|s|)
  {
    hide Val, Pow, P2, Mul;
    EmptyAbove(s, i, p);
    var s' := s[i := s[i] + lo];
    ValUpdate(s, i, s[i] + lo);
    ValUpdate(s', i + 1, hi);
    PowNext(i);
    ValBound(Put(s, i, lo, hi));
    PiecesIs(Pow(i), Pow(i + 1), lo, hi);
    DivModUnique(Val(s) + Pieces(Pow(i), lo, hi), Pow(|s|), 0, Val(Put(s, i, lo, hi)));
  }

  lemma PutAtEnd(s: seq<limb>, i: nat, p: nat, lo: limb, hi: limb)
    requires p < 64 && i + 1 == |s| && Val(s) < P2(64 * i + p) && lo + P2(p) <= BASE
    ensures Val(Put(s, i, lo, hi)) == (Val(s) + Pieces(Pow(i), lo, hi)) % Pow(|s|)
  {
    hide Val, Pow, P2, Mul;
    EmptyAbove(s, i, p);
    ValUpdate(s, i, s[i] + lo);
    PowNext(i);
    ValBound(Put(s, i, lo, hi));
    PiecesIs(Pow(i), Pow(i + 1), lo, hi);
    OnePiece(Val(s), Val(Put(s, i, lo, hi)), Pieces(Pow(i), lo, hi), Pow(|s|), hi, Mul(lo, Pow(i)));
  }

  lemma PutBeyond(s: seq<limb>, i: nat, lo: limb, hi: limb)
    requires |s| <= i
    ensures Val(Put(s, i, lo, hi)) == (Val(s) + Pieces(Pow(i), lo, hi)) % Pow(|s|)
  {
    hide Val, Pow, Mul;
    ValBound(s);
    PowAdd(|s|, i - |s|);
    Beyond(Val(s), Pow(|s|), Pow(i - |s|), lo, hi, Pow(i));
  }

  lemma PiecesIs(b: nat, b': nat, lo: limb, hi: limb)
    requires b' == b * BASE
    ensures Pieces(b, lo, hi) == Mul(lo, b) + Mul(hi, b')
  {}

  lemma OnePiece(v: int, t: int, x: int, n: int, hi: int, low: int)
    requires n > 0 && 0 <= t < n && x == low + Mul(hi, n) && t == v + low
    ensures (v + x) % n == t
  {
    DivModUnique(v + x, n, hi, t);
  }

  lemma PutArith(val: int, x: int, lo: int, hi: int, b: int, r: int)
    requires val * x == lo + BASE * hi && r == val * (b * x) && b >= 0 && 0 <= lo < BASE && 0 <= hi < BASE
    ensures r == Pieces(b, lo, hi)
  {
    assert val * (b * x) == b * (val * x);
    MulDist(lo, BASE * hi, b);
  }

  lemma Beyond(v: int, pn: int, q: int, lo: int, hi: int, b: int)
    requires 0 <= v < pn && b == Mul(pn, q) && b >= 0 && 0 <= lo < BASE && 0 <= hi < BASE
    ensures (v + Pieces(b, lo, hi)) % pn == v
  {
    var k := q * lo + q * BASE * hi;
    assert b * lo + b * BASE * hi == k * pn by {
      MulDist(q * lo, q * BASE * hi, pn);
      assert pn * q * lo == q * lo * pn && pn * q * BASE * hi == q * BASE * hi * pn;
    }
    DivModUnique(v + k * pn, pn, k, v);
  }

  lemma PutParts(s: seq<limb>, i: nat, p: nat, val: limb) returns (lo: limb, hi: limb)
    requires p < 64 && Val(s) < P2(64 * i + p)
    ensures lo == ShiftLeft(val, p) && (p == 0 ==> hi == 0) && (p > 0 ==> hi == ShiftRight(val, 64 - p))
    ensures i < |s| ==> BitOr(s[i], lo) == s[i] + lo < BASE
    ensures i + 1 < |s| ==> s[i + 1] == 0 && BitOr(0, hi) == hi
    ensures Val(Put(s, i, lo, hi)) == (Val(s) + Mul(val, P2(64 * i + p))) % Pow(|s|)
  {
    hide Val, Pow, BitOr;
    if p == 0 {
      assert P2(0) == 1 && P2(64 * i + 0) == P2(64 * i);
      lo, hi := val, 0;
      DivModUnique(val, BASE, 0, val);
    } else {
      ShiftedVal(val, p);
      lo, hi := ShiftLeft(val, p), ShiftRight(val, 64 - p);
    }
    hide P2, ShiftLeft, ShiftRight;
    if i < |s| {
      EmptyAbove(s, i, p);
      OrLow(s[i], lo, p);
    }
    OrZero(hi);
    PutValue(s, i, p, lo, hi, val);
  }

  lemma OrLow(a: limb, lo: limb, p: nat)
    requires a < P2(p) && lo % P2(p) == 0 && lo + P2(p) <= BASE
    ensures BitOr(a, lo) == a + lo < BASE
  {
    OrDisjoint(a, lo, p);
  }

  /** put_bits, on an array whose bits from pos on are clear. */
  method PutBits(tab: array<limb>, o: nat, len: nat, pos: nat, val: limb)
    requires o + len <= tab.Length && Val(tab[o..o + len]) < P2(pos)
    modifies tab
    ensures Val(tab[o..o + len]) == (old(Val(tab[o..o + len])) + Mul(val, P2(pos))) % Pow(len)
    ensures Untouched(tab, o, o + len)
  {
    hide Val, Pow, P2, BitOr, Mul, ShiftLeft, ShiftRight;
    var i, p := pos / 64, pos % 64;
    ghost var s := tab[o..o + len];
    ghost var lo, hi := PutParts(s, i, p, val);
    OrLimb(tab, o, len, i, ShiftLeft(val, p));
    if p != 0 {
      RightFits(val, 64 - p);
      OrLimb(tab, o, len, i + 1, ShiftRight(val, 64 - p));
    }
    PutIs(s, i, lo, hi, p);
  }

  lemma RightFits(val: limb, p: nat)
    requires 0 < p < 64
    ensures ShiftRight(val, p) < BASE
  {
    ShiftedVal(val, 64 - p);
  }

  /** s with x or-ed into limb i, when there is such a limb. */
  ghost function OrAt(s: seq<limb>, i: nat, x: limb): (t: seq<limb>)
    ensures |t| == |s|
  {
    if i < |s| then s[i := BitOr(s[i], x) % BASE] else s
  }

  lemma PutIs(s: seq<limb>, i: nat, lo: limb, hi: limb, p: nat)
    requires i < |s| ==> BitOr(s[i], lo) == s[i] + lo < BASE
    requires i + 1 < |s| ==> s[i + 1] == 0 && BitOr(0, hi) == hi
    requires p == 0 ==> hi == 0
    ensures Put(s, i, lo, hi) == if p == 0 then OrAt(s, i, lo) else OrAt(OrAt(s, i, lo), i + 1, hi)
  {
    hide BitOr;
  }

  method OrLimb(tab: array<limb>, o: nat, len: nat, i: nat, x: limb)
    requires o + len <= tab.Length
    modifies tab
    ensures tab[o..o + len] == OrAt(old(tab[o..o + len]), i, x)
    ensures Untouched(tab, o, o + len)
  {
    hide BitOr;
    ghost var s := tab[o..o + len];
    if i < len {
      assert s[i] == tab[o + i];
      tab[o + i] := BitOr(tab[o + i], x) % BASE;
    }
  }
}
