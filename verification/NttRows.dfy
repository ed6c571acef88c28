/** The split of a long transform into columns and rows: a buffer of n1 * n2 values is a matrix; transforming
    the columns and twisting them turns every row into a shorter polynomial with the same values at a coset
    of the roots. */
module NttRows {
  import opened Limbs
  import opened Congruence
  import opened NttStage
  import opened NttInverse

  ghost function AtInt(a: seq<int>, k: int): int {
    if 0 <= k < |a| then a[k] else 0
  }

  ghost function Col(a: seq<int>, n1: nat, n2: nat, j: nat): (c: seq<int>)
    ensures |c| == n1
  {
    seq(n1, i requires 0 <= i < n1 => AtInt(a, Area(i, n2) + j))
  }

  ghost function Row(a: seq<int>, n2: nat, i: nat): (r: seq<int>)
    ensures |r| == n2
  {
    seq(n2, j requires 0 <= j < n2 => AtInt(a, Area(i, n2) + j))
  }

  /** The values of the columns at X. */
  ghost function ColValues(a: seq<int>, n1: nat, n2: nat, X: int): (e: seq<int>)
    ensures |e| == n2
  {
    seq(n2, j requires 0 <= j < n2 => Eval(Col(a, n1, n2, j), X))
  }

  lemma ColCons(a: seq<int>, n1: nat, n2: nat, j: nat)
    requires n1 > 0 && |a| >= n2 && j < n2
    ensures Col(a, n1, n2, j) == [a[j]] + Col(a[n2..], n1 - 1, n2, j)
  {
    var c, d := Col(a, n1, n2, j), [a[j]] + Col(a[n2..], n1 - 1, n2, j);
    forall i | 0 <= i < n1
      ensures c[i] == d[i]
    {
      if i > 0 {
        AreaPred(i, n2);
      } else {
        AreaZero(n2);
      }
    }
  }

  lemma AreaPred(i: nat, n: nat)
    requires i > 0
    ensures Area(i, n) == n + Area(i - 1, n)
  {
    MulDist(i - 1, 1, n);
  }

  /** A polynomial evaluated column by column. */
  lemma {:induction false} ColumnEval(a: seq<int>, n1: nat, n2: nat, x: int)
    requires |a| == Area(n1, n2)
    ensures Eval(a, x) == Eval(ColValues(a, n1, n2, Power(x, n2)), x)
    decreases n1
  {
    hide Power;
    var X := Power(x, n2);
    if n1 == 0 {
      AreaZero(n2);
      ZeroEval(n2, x);
      assert ColValues(a, 0, n2, X) == seq(n2, i => 0);
    } else {
      AreaPred(n1, n2);
      var row, rest := a[..n2], a[n2..];
      assert a == row + rest;
      ColumnEval(rest, n1 - 1, n2, x);
      forall j | 0 <= j < n2
        ensures ColValues(a, n1, n2, X)[j] == row[j] + X * ColValues(rest, n1 - 1, n2, X)[j]
      {
        ColCons(a, n1, n2, j);
        EvalConcat([a[j]], Col(rest, n1 - 1, n2, j), X);
        EvalOne(a[j], X);
        PowerFirst(X);
      }
      EvalLinear(row, ColValues(rest, n1 - 1, n2, X), ColValues(a, n1, n2, X), X, x);
      EvalConcat(row, rest, x);
    }
  }

  lemma PowerFirst(x: int)
    ensures Power(x, 1) == x
  {
    assert Power(x, 1) == x * Power(x, 0);
  }

  /** Row i of t has at y the value a has at w^i * y, for every n2-th root of unity y. */
  lemma RowEval(a: seq<int>, r: seq<int>, n1: nat, n2: nat, w: int, om: int, i: nat, y: int, m: int)
    requires |a| == Area(n1, n2) && |r| == n2 && Cong(om, Power(w, n2), m) && Cong(Power(y, n2), 1, m)
    requires forall j: nat | j < n2 :: Cong(r[j], Eval(Col(a, n1, n2, j), Power(om, i)) * Power(Power(w, j), i), m)
    ensures Cong(Eval(r, y), Eval(a, Power(w, i) * y), m)
  {
    hide Area;
    var g := Power(w, i);
    var x := g * y;
    var X := Power(x, n2);
    var E := ColValues(a, n1, n2, X);
    ColumnEval(a, n1, n2, x);
    var scaled := seq(n2, j requires 0 <= j < n2 => E[j] * (1 * Power(g, j)));
    EvalScale(E, scaled, g, y, 1);
    TwistedRoot(w, om, g, y, i, n2, m);
    forall j: nat | j < n2
      ensures Cong(r[j], scaled[j], m)
    {
      hide Power, Eval, Cong;
      ColCong(Col(a, n1, n2, j), Power(om, i), X, m);
      PowerSwap(w, j, i);
      RowEntry(r[j], Eval(Col(a, n1, n2, j), Power(om, i)), E[j], Power(g, j), m);
    }
    assert CongEach(r, scaled, m);
    hide Cong, Power;
    CongPositive(om, Power(w, n2), m);
    CongRefl(y, m);
    EvalCong(r, scaled, y, y, m);
  }

  lemma RowEntry(r: int, e: int, f: int, p: int, m: int)
    requires Cong(r, e * p, m) && Cong(e, f, m)
    ensures Cong(r, f * (1 * p), m)
  {
    CongMul(e, f, p, p, m);
  }

  lemma ColCong(c: seq<int>, x: int, y: int, m: int)
    requires Cong(x, y, m)
    ensures Cong(Eval(c, x), Eval(c, y), m)
  {
    EachCong(c, m);
    EvalCong(c, c, x, y, m);
  }

  lemma EachCong(c: seq<int>, m: int)
    requires m > 0
    ensures CongEach(c, c, m)
  {}

  lemma TwistedRoot(w: int, om: int, g: int, y: int, i: nat, n2: nat, m: int)
    requires g == Power(w, i) && Cong(om, Power(w, n2), m) && Cong(Power(y, n2), 1, m)
    ensures Cong(Power(om, i), Power(g * y, n2), m)
  {
    PowerBase(g, y, n2);
    PowerSwap(w, i, n2);
    PowerCong(om, Power(w, n2), i, m);
    CongMul(Power(g, n2), Power(om, i), Power(y, n2), 1, m);
  }

  // Convolution.

  /** c has, at the powers of w, s times the product of the values of a and b. */
  ghost predicate ConvOk(a: seq<int>, b: seq<int>, c: seq<int>, w: int, n: nat, s: int, m: int) {
    forall q: nat | q < n :: ConvAt(a, b, c, Power(w, q), s, m)
  }

  ghost predicate ConvAt(a: seq<int>, b: seq<int>, c: seq<int>, x: int, s: int, m: int) {
    Cong(Eval(c, x), s * (Eval(a, x) * Eval(b, x)), m)
  }

  /** What the column pass does to the matrix a: transform each column, then twist it. */
  ghost predicate Forward(a: seq<int>, t: seq<int>, n1: nat, n2: nat, w: int, om: int, m: int) {
    forall i: nat, j: nat | i < n1 && j < n2 :: ForwardAt(a, t, n1, n2, w, om, m, i, j)
  }

  ghost predicate ForwardAt(a: seq<int>, t: seq<int>, n1: nat, n2: nat, w: int, om: int, m: int, i: nat, j: nat)
    requires j < n2
  {
    Cong(Row(t, n2, i)[j], Eval(Col(a, n1, n2, j), Power(om, i)) * Power(Power(w, j), i), m)
  }

  /** And what the inverse column pass does: untwist, then transform back. */
  ghost predicate Backward(t: seq<int>, c: seq<int>, n1: nat, n2: nat, v: int, vo: int, m: int) {
    forall i: nat, j: nat | i < n1 && j < n2 ::
      Cong(Col(c, n1, n2, j)[i], Eval(Untwisted(t, n1, n2, v, j), Power(vo, i)), m)
  }

  ghost function Untwisted(t: seq<int>, n1: nat, n2: nat, v: int, j: nat): (z: seq<int>)
    ensures |z| == n1
  {
    seq(n1, i requires 0 <= i < n1 => Col(t, n1, n2, j)[i] * Power(Power(v, j), i))
  }

  ghost function Scaled(t: seq<int>, s: int): (r: seq<int>)
    ensures |r| == |t|
  {
    seq(|t|, k requires 0 <= k < |t| => s * t[k])
  }

  lemma RowOfForward(a: seq<int>, t: seq<int>, n1: nat, n2: nat, w: int, om: int, m: int, i: nat, y: int)
    requires Forward(a, t, n1, n2, w, om, m) && i < n1 && |a| == Area(n1, n2)
    requires Cong(om, Power(w, n2), m) && Cong(Power(y, n2), 1, m)
    ensures Cong(Eval(Row(t, n2, i), y), Eval(a, Power(w, i) * y), m)
  {
    hide Cong, Power, Area, Col, Eval;
    forall j: nat | j < n2
      ensures Cong(Row(t, n2, i)[j], Eval(Col(a, n1, n2, j), Power(om, i)) * Power(Power(w, j), i), m)
    {
      assert ForwardAt(a, t, n1, n2, w, om, m, i, j);
    }
    RowEval(a, Row(t, n2, i), n1, n2, w, om, i, y, m);
  }

  /** The inverse pass undoes the forward pass, up to the factor n1. */
  lemma BackwardForward(t: seq<int>, c: seq<int>, k1: nat, n2: nat, w: int, v: int, om: int, vo: int, m: int, i: nat,
                        j: nat)
    requires Backward(t, c, P2(k1), n2, v, vo, m) && InverseRoots(om, vo, k1, m) && Cong(w * v, 1, m)
    requires i < P2(k1) && j < n2
    ensures Cong(P2(k1) * Row(t, n2, i)[j], Eval(Col(c, P2(k1), n2, j), Power(om, i)) * Power(Power(w, j), i), m)
  {
    hide Power, Eval, Area, P2;
    var n1 := P2(k1);
    var z := Untwisted(t, n1, n2, v, j);
    Inversion(z, Col(c, n1, n2, j), om, vo, k1, i, m);
    Untwist(w, v, i, j, m);
    hide Cong;
    UntwistArith(Eval(Col(c, n1, n2, j), Power(om, i)), n1, Row(t, n2, i)[j], Power(Power(v, j), i),
                 Power(Power(w, j), i), m);
  }

  lemma Untwist(w: int, v: int, i: nat, j: nat, m: int)
    requires Cong(w * v, 1, m)
    ensures Cong(Power(Power(v, j), i) * Power(Power(w, j), i), 1, m)
  {
    hide Power, Cong;
    PowerBase(w, v, j);
    PowerBase(Power(w, j), Power(v, j), i);
    PowerCong(w * v, 1, j, m);
    PowerOne(j);
    PowerCong(Power(w, j) * Power(v, j), 1, i, m);
    PowerOne(i);
    MulSwap(Power(Power(v, j), i), Power(Power(w, j), i));
  }

  lemma UntwistArith(e: int, n: int, t: int, p: int, q: int, m: int)
    requires Cong(e, n * (t * p), m) && Cong(p * q, 1, m)
    ensures Cong(n * t, e * q, m)
  {
    CongMul(e, n * (t * p), q, q, m);
    CongMul(n * t, n * t, p * q, 1, m);
    assert n * (t * p) * q == n * t * (p * q);
  }

  /** Row i of the product matrix: values of the result at the coset w^i * y. */
  lemma RowOfBackward(t: seq<int>, c: seq<int>, k1: nat, n2: nat, w: int, v: int, om: int, vo: int, m: int, i: nat,
                      y: int)
    requires Backward(t, c, P2(k1), n2, v, vo, m) && InverseRoots(om, vo, k1, m) && Cong(w * v, 1, m)
    requires i < P2(k1) && |c| == Area(P2(k1), n2) && Cong(om, Power(w, n2), m) && Cong(Power(y, n2), 1, m)
    ensures Cong(P2(k1) * Eval(Row(t, n2, i), y), Eval(c, Power(w, i) * y), m)
  {
    hide Cong, Power, Area, P2, Backward, InverseRoots, Col;
    var n1, r := P2(k1), Row(t, n2, i);
    var r' := Scaled(r, n1);
    forall j: nat | j < n2
      ensures Cong(r'[j], Eval(Col(c, n1, n2, j), Power(om, i)) * Power(Power(w, j), i), m)
    {
      BackwardForward(t, c, k1, n2, w, v, om, vo, m, i, j);
    }
    RowEval(c, r', n1, n2, w, om, i, y, m);
    ScaledEval(r, n1, y);
  }

  lemma {:induction false} ScaledEval(r: seq<int>, s: int, y: int)
    ensures Eval(Scaled(r, s), y) == s * Eval(r, y)
  {
    if r != [] {
      assert Scaled(r, s)[1..] == Scaled(r[1..], s);
      ScaledEval(r[1..], s, y);
      var e := Eval(r[1..], y);
      assert y * (s * e) == s * (y * e);
      MulDist(r[0], y * e, s);
    }
  }

  /** If every row of the product matrix is the convolution of the rows, the whole is the convolution. */
  lemma ConvRows(a: seq<int>, b: seq<int>, c: seq<int>, A: seq<int>, B: seq<int>, C: seq<int>, k1: nat, n2: nat,
                 w: int, v: int, om: int, vo: int, w2: int, s: int, m: int, i: nat, q: nat)
    requires |a| == |b| == |c| == Area(P2(k1), n2) && i < P2(k1) && q < n2
    requires Forward(a, A, P2(k1), n2, w, om, m) && Forward(b, B, P2(k1), n2, w, om, m)
             && Backward(C, c, P2(k1), n2, v, vo, m)
    requires ConvOk(Row(A, n2, i), Row(B, n2, i), Row(C, n2, i), w2, n2, s, m)
    requires InverseRoots(om, vo, k1, m) && Cong(w * v, 1, m) && Cong(om, Power(w, n2), m)
    requires Cong(w2, Power(w, P2(k1)), m) && Cong(Power(w2, n2), 1, m)
    ensures ConvAt(a, b, c, Power(w, i + Area(P2(k1), q)), P2(k1) * s, m)
  {
    hide Power, Area, P2, Backward, Forward, InverseRoots, Row;
    var n1, y := P2(k1), Power(w2, q);
    UnityPower(w2, q, n2, m);
    RowOfForward(a, A, n1, n2, w, om, m, i, y);
    RowOfForward(b, B, n1, n2, w, om, m, i, y);
    RowOfBackward(C, c, k1, n2, w, v, om, vo, m, i, y);
    assert ConvAt(Row(A, n2, i), Row(B, n2, i), Row(C, n2, i), y, s, m);
    Coset(w, w2, n1, i, q, m);
    var x, z := Power(w, i) * y, Power(w, i + Area(n1, q));
    hide Cong, Eval;
    ColCong(a, x, z, m);
    ColCong(b, x, z, m);
    ColCong(c, x, z, m);
    CosetArith(Eval(Row(A, n2, i), y), Eval(Row(B, n2, i), y), Eval(Row(C, n2, i), y), Eval(a, x), Eval(b, x),
               Eval(c, x), Eval(a, z), Eval(b, z), Eval(c, z), n1, s, m);
  }

  lemma UnityPower(w: int, q: nat, n: nat, m: int)
    requires Cong(Power(w, n), 1, m)
    ensures Cong(Power(Power(w, q), n), 1, m)
  {
    PowerSwap(w, q, n);
    PowerCong(Power(w, n), 1, q, m);
    PowerOne(q);
  }

  lemma Coset(w: int, w2: int, n1: nat, i: nat, q: nat, m: int)
    requires Cong(w2, Power(w, n1), m)
    ensures Cong(Power(w, i) * Power(w2, q), Power(w, i + Area(n1, q)), m)
  {
    PowerCong(w2, Power(w, n1), q, m);
    PowerMul(w, n1, q);
    PowerAdd(w, i, n1 * q);
    CongMul(Power(w, i), Power(w, i), Power(w2, q), Power(w, n1 * q), m);
  }

  lemma CosetArith(ra: int, rb: int, rc: int, ax: int, bx: int, cx: int, az: int, bz: int, cz: int, n1: int, s: int,
                   m: int)
    requires Cong(ra, ax, m) && Cong(rb, bx, m) && Cong(n1 * rc, cx, m) && Cong(rc, s * (ra * rb), m)
    requires Cong(ax, az, m) && Cong(bx, bz, m) && Cong(cx, cz, m)
    ensures Cong(cz, (n1 * s) * (az * bz), m)
  {
    CongMul(ra, az, rb, bz, m);
    CongMul(s, s, ra * rb, az * bz, m);
    CongMul(n1, n1, rc, s * (az * bz), m);
    assert n1 * (s * (az * bz)) == (n1 * s) * (az * bz);
  }
}
