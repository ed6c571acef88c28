/** One pass of the Stockham transform as algebra: a block of values is a polynomial known by its values at
    the powers of a root of unity; adding and subtracting its halves splits it by the parity of the
    exponent. */
module NttStage {
  import opened Limbs
  import opened Congruence

  /** Powers of a root whose H-th power is -1. */
  lemma EvenPower(c: int, H: nat, r: nat, m: int)
    requires Cong(Power(c, H), -1, m)
    ensures Cong(Power(Power(c, 2 * r), H), 1, m) && Cong(Power(Power(c, 2 * r + 1), H), -1, m)
  {
    PowerSwap(c, 2 * r, H);
    PowerSwap(c, 2 * r + 1, H);
    PowerCong(Power(c, H), -1, 2 * r, m);
    PowerCong(Power(c, H), -1, 2 * r + 1, m);
    PowerMinusOne(r);
  }

  lemma PowerSwap(c: int, d: nat, e: nat)
    ensures Power(Power(c, d), e) == Power(Power(c, e), d)
  {
    PowerMul(c, d, e);
    PowerMul(c, e, d);
    assert d * e == e * d;
  }

  /** A root squared, to the power r. */
  lemma SquaredPower(c: int, c': int, r: nat, m: int)
    requires Cong(c', c * c, m)
    ensures Cong(Power(c', r), Power(c, 2 * r), m)
  {
    PowerCong(c', c * c, r, m);
    PowerMul(c, 2, r);
    assert Power(c, 2) == c * (c * Power(c, 0)) == c * c;
  }

  ghost function Sums(s: seq<int>, H: nat, k: int): seq<int>
    requires |s| == 2 * H
  {
    seq(H, i requires 0 <= i < H => s[i] + k * s[H + i])
  }

  /** The halves folded together: the polynomial at a point whose H-th power is k. */
  lemma Folded(s: seq<int>, H: nat, y: int, k: int, m: int)
    requires |s| == 2 * H && Cong(Power(y, H), k, m)
    ensures Cong(Eval(s, y), Eval(Sums(s, H, k), y), m)
  {
    hide Cong;
    var lo, hi := s[..H], s[H..];
    assert s == lo + hi;
    EvalConcat(lo, hi, y);
    EvalLinear(lo, hi, Sums(s, H, k), k, y);
    var e, f := Eval(lo, y), Eval(hi, y);
    FoldArith(e, f, Power(y, H), k, m);
  }

  lemma FoldArith(e: int, f: int, p: int, k: int, m: int)
    requires Cong(p, k, m)
    ensures Cong(e + p * f, e + k * f, m)
  {
    CongMul(p, k, f, f, m);
    CongAdd(e, e, p * f, k * f, m);
  }

  /** The sums of the halves carry the values at the even powers. */
  lemma EvenHalf(s: seq<int>, t: seq<int>, H: nat, c: int, c': int, r: nat, m: int)
    requires |s| == 2 * H && |t| == H && Cong(Power(c, H), -1, m) && Cong(c', c * c, m)
    requires forall i :: 0 <= i < H ==> Cong(t[i], s[i] + s[H + i], m)
    ensures Cong(Eval(t, Power(c', r)), Eval(s, Power(c, 2 * r)), m)
  {
    EvenPower(c, H, r, m);
    Folded(s, H, Power(c, 2 * r), 1, m);
    SquaredPower(c, c', r, m);
    assert CongEach(t, Sums(s, H, 1), m);
    hide Cong;
    EvalCong(t, Sums(s, H, 1), Power(c', r), Power(c, 2 * r), m);
    CongTrans(Eval(t, Power(c', r)), Eval(Sums(s, H, 1), Power(c, 2 * r)), Eval(s, Power(c, 2 * r)), m);
  }

  /** The differences, scaled by the powers of the root, carry the values at the odd powers. */
  lemma OddHalf(s: seq<int>, t: seq<int>, H: nat, c: int, c': int, r: nat, m: int)
    requires |s| == 2 * H && |t| == H && Cong(Power(c, H), -1, m) && Cong(c', c * c, m)
    requires forall i :: 0 <= i < H ==> Cong(t[i], (s[i] - s[H + i]) * Power(c, i), m)
    ensures Cong(Eval(t, Power(c', r)), Eval(s, Power(c, 2 * r + 1)), m)
  {
    var diff := Sums(s, H, -1);
    var scaled := seq(H, i requires 0 <= i < H => diff[i] * (1 * Power(c, i)));
    EvenPower(c, H, r, m);
    var y := Power(c, 2 * r + 1);
    Folded(s, H, y, -1, m);
    assert y == c * Power(c, 2 * r);
    EvalScale(diff, scaled, c, Power(c, 2 * r), 1);
    SquaredPower(c, c', r, m);
    assert CongEach(t, scaled, m);
    hide Cong;
    EvalCong(t, scaled, Power(c', r), Power(c, 2 * r), m);
    CongTrans(Eval(t, Power(c', r)), Eval(diff, y), Eval(s, y), m);
  }

  // Blocks inside a buffer.

  /** x times y, under a name that proofs can hide. */
  ghost function Area(x: nat, y: nat): nat {
    x * y
  }

  ghost function At(v: seq<limb>, k: int): int {
    if 0 <= k < |v| then v[k] else 0
  }

  /** The M values of subproblem j when the buffer holds F of them side by side. */
  ghost function Sub(v: seq<limb>, F: nat, M: nat, j: nat): (s: seq<int>)
    ensures |s| == M
  {
    seq(M, i requires 0 <= i < M => At(v, Area(i, F) + j))
  }

  /** Subproblem j has, at the r-th power of its root c, the value of P at the power j + F * r of the root w of
      the whole transform. */
  ghost predicate StageAt(v: seq<limb>, P: seq<int>, w: int, c: int, F: nat, M: nat, m: int, j: nat, r: nat) {
    Cong(Eval(Sub(v, F, M, j), Power(c, r)), Eval(P, Power(w, j + Area(F, r))), m)
  }

  /** The buffer v after some passes. */
  ghost predicate Stage(v: seq<limb>, P: seq<int>, w: int, c: int, F: nat, M: nat, m: int) {
    forall j: nat, r: nat | j < F && r < M :: StageAt(v, P, w, c, F, M, m, j, r)
  }

  /** The two outputs of one butterfly. */
  ghost predicate Butterfly(v: seq<limb>, t: seq<limb>, F: nat, H: nat, c: int, m: int, i: nat, j: nat) {
    var a0, a1 := At(v, Area(i, F) + j), At(v, Area(H + i, F) + j);
    Cong(At(t, Area(i, 2 * F) + j), a0 + a1, m) && Cong(At(t, Area(i, 2 * F) + j + F), (a0 - a1) * Power(c, i), m)
  }

  ghost predicate Pass(v: seq<limb>, t: seq<limb>, F: nat, H: nat, c: int, m: int) {
    forall i: nat, j: nat | i < H && j < F :: Butterfly(v, t, F, H, c, m, i, j)
  }

  /** The transform starts with one problem: the polynomial itself. */
  lemma StageStart(v: seq<limb>, P: seq<int>, w: int, m: int)
    requires m > 0 && |P| == |v| && forall i :: 0 <= i < |v| ==> P[i] == v[i]
    ensures Stage(v, P, w, w, 1, |v|, m)
  {
    assert Sub(v, 1, |v|, 0) == P;
  }

  lemma PassHalves(v: seq<limb>, t: seq<limb>, F: nat, H: nat, c: int, m: int, j: nat, i: nat)
    requires Pass(v, t, F, H, c, m) && j < F && i < H
    ensures
      var s := Sub(v, F, 2 * H, j);
      && Cong(Sub(t, 2 * F, H, j)[i], s[i] + s[H + i], m)
      && Cong(Sub(t, 2 * F, H, j + F)[i], (s[i] - s[H + i]) * Power(c, i), m)
  {
    hide Cong, Area, Power;
    assert Butterfly(v, t, F, H, c, m, i, j);
  }

  lemma StageGet(v: seq<limb>, P: seq<int>, w: int, c: int, F: nat, M: nat, m: int, j: nat, r: nat)
    requires Stage(v, P, w, c, F, M, m) && j < F && r < M
    ensures Cong(Eval(Sub(v, F, M, j), Power(c, r)), Eval(P, Power(w, j + Area(F, r))), m)
  {
    assert StageAt(v, P, w, c, F, M, m, j, r);
  }

  lemma PassEven(v: seq<limb>, t: seq<limb>, P: seq<int>, w: int, c: int, c': int, F: nat, H: nat, m: int, j: nat,
                 r: nat)
    requires Stage(v, P, w, c, F, 2 * H, m) && Pass(v, t, F, H, c, m)
    requires Cong(Power(c, H), -1, m) && Cong(c', c * c, m) && j < F && r < H
    ensures StageAt(t, P, w, c', 2 * F, H, m, j, r)
  {
    hide Cong, Area, Eval, Power, Sub, Pass, Stage;
    var s, u := Sub(v, F, 2 * H, j), Sub(t, 2 * F, H, j);
    forall i: nat | i < H
      ensures Cong(u[i], s[i] + s[H + i], m)
    {
      PassHalves(v, t, F, H, c, m, j, i);
    }
    EvenHalf(s, u, H, c, c', r, m);
    StageGet(v, P, w, c, F, 2 * H, m, j, 2 * r);
    Exponents(F, r);
    CongTrans(Eval(u, Power(c', r)), Eval(s, Power(c, 2 * r)), Eval(P, Power(w, j + Area(2 * F, r))), m);
  }

  lemma PassOdd(v: seq<limb>, t: seq<limb>, P: seq<int>, w: int, c: int, c': int, F: nat, H: nat, m: int, j: nat,
                r: nat)
    requires Stage(v, P, w, c, F, 2 * H, m) && Pass(v, t, F, H, c, m)
    requires Cong(Power(c, H), -1, m) && Cong(c', c * c, m) && j < F && r < H
    ensures StageAt(t, P, w, c', 2 * F, H, m, j + F, r)
  {
    hide Cong, Area, Eval, Power, Sub, Pass, Stage;
    var s, u := Sub(v, F, 2 * H, j), Sub(t, 2 * F, H, j + F);
    forall i: nat | i < H
      ensures Cong(u[i], (s[i] - s[H + i]) * Power(c, i), m)
    {
      PassHalves(v, t, F, H, c, m, j, i);
    }
    OddHalf(s, u, H, c, c', r, m);
    StageGet(v, P, w, c, F, 2 * H, m, j, 2 * r + 1);
    Exponents(F, r);
    CongTrans(Eval(u, Power(c', r)), Eval(s, Power(c, 2 * r + 1)), Eval(P, Power(w, (j + F) + Area(2 * F, r))), m);
  }

  lemma Exponents(F: nat, r: nat)
    ensures Area(F, 2 * r) == Area(2 * F, r) && Area(F, 2 * r + 1) == F + Area(2 * F, r)
  {}

  /** A pass doubles the number of subproblems and squares their root. */
  lemma PassStage(v: seq<limb>, t: seq<limb>, P: seq<int>, w: int, c: int, c': int, F: nat, H: nat, m: int)
    requires Stage(v, P, w, c, F, 2 * H, m) && Pass(v, t, F, H, c, m)
    requires Cong(Power(c, H), -1, m) && Cong(c', c * c, m)
    ensures Stage(t, P, w, c', 2 * F, H, m)
  {
    hide Cong, Power, StageAt, Pass;
    forall j: nat, r: nat | j < 2 * F && r < H
      ensures StageAt(t, P, w, c', 2 * F, H, m, j, r)
    {
      if j < F {
        PassEven(v, t, P, w, c, c', F, H, m, j, r);
      } else {
        PassOdd(v, t, P, w, c, c', F, H, m, j - F, r);
      }
    }
  }

  /** When every subproblem has one value, the buffer holds the values of P at the powers of w. */
  lemma StageEnd(v: seq<limb>, P: seq<int>, w: int, c: int, m: int, j: nat)
    requires Stage(v, P, w, c, |v|, 1, m) && j < |v|
    ensures Cong(v[j], Eval(P, Power(w, j)), m)
  {
    hide Cong, Power, Stage;
    StageGet(v, P, w, c, |v|, 1, m, j, 0);
    AreaZero(|v|);
    SubOne(v, j);
    EvalOne(v[j], Power(c, 0));
  }

  lemma AreaZero(n: nat)
    ensures Area(n, 0) == 0 && Area(0, n) == 0
  {}

  lemma SubOne(v: seq<limb>, j: nat)
    requires j < |v|
    ensures Sub(v, |v|, 1, j) == [v[j] as int]
  {
    AreaZero(|v|);
  }
}
