/** Schoolbook long division of limb arrays (libbf.c mp_divnorm, base case). */
module LimbDivLong {
  import opened Limbs
  import opened LimbArith
  import opened LimbDiv

  /** The trial digit of Knuth's algorithm D for a window w of nb + 1 limbs with top two limbs u,
      a divisor d with top limb b1: never below the digit, at most two above it. */
  lemma TrialDigit(w: int, u: int, wl: int, d: int, b1: limb, dl: int, p: int, q: int)
    requires p >= 1 && 0 <= wl < p && 0 <= dl < p
    requires w == Mul(u, p) + wl && d == Mul(b1, p) + dl
    requires b1 >= HALF && 0 <= w < Mul(BASE, d)
    requires 0 <= q < BASE
    requires q == BASE - 1 || u < Mul(q, b1) + b1
    requires Mul(q, b1) <= u
    ensures w - Mul(q, d) < d
    ensures q >= 2 ==> Mul(q - 2, d) <= w
  {
    TrialDigitHigh(w, u, wl, d, b1, dl, p, q);
    if q >= 2 {
      TrialDigitLow(w, u, wl, d, b1, dl, p, q);
    }
  }

  lemma TrialDigitHigh(w: int, u: int, wl: int, d: int, b1: limb, dl: int, p: int, q: int)
    requires p >= 1 && 0 <= wl < p && 0 <= dl < p
    requires w == Mul(u, p) + wl && d == Mul(b1, p) + dl
    requires 0 <= w < BASE * d && 0 <= q
    requires q == BASE - 1 || u < q * b1 + b1
    ensures w - q * d < d
  {
    if q < BASE - 1 {
      var x := q * b1 + b1;
      MulMono(u + 1, x, p);
      MulDist(u, 1, p);
      MulDist(q * b1, b1, p);
      MulDist(b1 * p, dl, q);
      assert q * (b1 * p) == q * b1 * p;
      MulMono(0, q, dl);
    }
  }

  lemma TrialDigitLow(w: int, u: int, wl: int, d: int, b1: limb, dl: int, p: int, q: int)
    requires p >= 1 && 0 <= wl < p && 0 <= dl < p
    requires w == Mul(u, p) + wl && d == Mul(b1, p) + dl
    requires b1 >= HALF && 2 <= q < BASE
    requires q * b1 <= u
    ensures (q - 2) * d <= w
  {
    // d < (b1 + 1) * p, and (q - 2) * (b1 + 1) <= u because 2 * b1 >= q
    var y := q - 2;
    MulMono(d, b1 * p + p, y);
    MulDist(b1 * p, p, y);
    MulDist(y, 2, b1);
    assert (b1 * p) * y == y * b1 * p && p * y == y * p;
    MulDist(y * b1, y, p);
    MulMono(y * b1 + y, u, p);
  }

  /** low + s * p is the window minus q times the divisor; s is the signed top limb. */
  ghost predicate Residue(low: int, s: int, p: int, w: int, q: int, d: int) {
    low + Mul(s, p) == w - Mul(q, d)
  }

  lemma ResidueFinal(low: int, s: int, p: int, w: int, q: int, d: int)
    requires Residue(low, s, p, w, q, d) && 0 <= low && 0 <= s && 0 < d <= p
    requires w - Mul(q, d) < d
    ensures s == 0 && low < d && w == Mul(q, d) + low
  {
    if s >= 1 {
      MulMono(1, s, p);
    }
  }

  lemma ResidueNegative(low: int, s: int, p: int, w: int, q: int, d: int)
    requires Residue(low, s, p, w, q, d) && 0 <= low < p && s <= -1 && 0 <= w && 0 < d
    ensures q >= 1 && w - Mul(q, d) < 0
  {
    MulMono(s, -1, p);
    if q <= 0 {
      MulMono(q, 0, d);
    }
  }

  lemma ResidueUp(low: int, s: int, p: int, w: int, q: int, d: int, low': int, c: int)
    requires Residue(low, s, p, w, q, d)
    requires low' + Mul(c, p) == low + d
    ensures Residue(low', s + c, p, w, q - 1, d)
  {
    MulDist(s, c, p);
    MulDist(q, 1, d);
  }

  lemma ResidueStart(low: int, v: int, r: int, p: int, w: int, q: int, d: int, low': int)
    requires w == low + Mul(v, p)
    requires low' - Mul(r, p) == low - Mul(q, d)
    ensures Residue(low', v - r, p, w, q, d)
  {
    MulDist(v, r, p);
  }

  /** A trial digit for the window at i: the largest limb when the tops are equal. */
  method TrialLimb(a: array<limb>, i: nat, b: array<limb>, bo: nat, nb: nat, b1: limb, inv: limb, useInverse: bool)
    returns (q: limb)
    requires i + nb < a.Length && bo + nb <= b.Length && nb >= 2
    requires b1 == b[bo + nb - 1] && b1 >= HALF
    requires useInverse ==> IsInverse(inv, b1)
    requires Val(a[i..i + nb + 1]) < Mul(BASE, Val(b[bo..bo + nb]))
    ensures Val(a[i..i + nb + 1]) - Mul(q, Val(b[bo..bo + nb])) < Val(b[bo..bo + nb])
    ensures q >= 2 ==> Mul(q - 2, Val(b[bo..bo + nb])) <= Val(a[i..i + nb + 1])
    ensures IsTrial(q, a[i..i + nb + 1], b1)
  {
    hide Mul, Val, Pow;
    var u1, u0 := a[i + nb], a[i + nb - 1];
    if u1 >= b1 {
      q := BASE - 1;
      SaturatedDigit(u1, u0, b1);
    } else {
      var r;
      q, r := DivLimb(u1, u0, b1, inv, useInverse);
      OrdinaryDigit(u1 * BASE + u0, b1, q, r);
    }
    TrialWindow(a[i..i + nb + 1], b[bo..bo + nb], q);
  }

  lemma SaturatedDigit(u1: limb, u0: limb, b1: limb)
    requires u1 >= b1
    ensures Mul(BASE - 1, b1) <= u1 * BASE + u0
  {}

  lemma OrdinaryDigit(u: int, b1: int, q: int, r: int)
    requires Mul(q, b1) + r == u && 0 <= r < b1
    ensures Mul(q, b1) <= u < Mul(q, b1) + b1
  {}

  lemma TrialWindow(w: seq<limb>, d: seq<limb>, q: limb)
    requires |w| == |d| + 1 && |d| >= 2
    requires Val(w) < Mul(BASE, Val(d))
    requires d[|d| - 1] >= HALF
    requires q == BASE - 1 || w[|d|] * BASE + w[|d| - 1] < Mul(q, d[|d| - 1]) + d[|d| - 1]
    requires Mul(q, d[|d| - 1]) <= w[|d|] * BASE + w[|d| - 1]
    ensures Val(w) - Mul(q, Val(d)) < Val(d)
    ensures q >= 2 ==> Mul(q - 2, Val(d)) <= Val(w)
  {
    hide Mul, Val, Pow;
    var n := |d|;
    var b1, u := d[n - 1], w[n] * BASE + w[n - 1];
    TopTwo(w);
    ValBound(w[..n - 1]);
    ValBound(d[..n - 1]);
    ValPrefix(d, n - 1);
    assert d[..n] == d;
    TrialDigit(Val(w), u, Val(w[..n - 1]), Val(d), b1, Val(d[..n - 1]), Pow(n - 1), q);
  }

  lemma TopTwo(w: seq<limb>)
    requires |w| >= 2
    ensures Val(w) == Mul(w[|w| - 1] * BASE + w[|w| - 2], Pow(|w| - 2)) + Val(w[..|w| - 2])
  {
    hide Mul, Val, Pow;
    var n := |w| - 2;
    assert w[..n + 2] == w;
    ValPrefix(w, n);
    ValPrefix(w, n + 1);
    TopTwoArith(w[n + 1], w[n], Pow(n), Pow(n + 1)) by {
      PowNext(n);
    }
  }

  lemma TopTwoArith(x: int, y: int, p: int, p': int)
    requires p' == p * BASE
    ensures Mul(y, p) + Mul(x, p') == Mul(x * BASE + y, p)
  {
    MulDist(x * BASE, y, p);
  }

  /** The trial digit: the quotient of the top two limbs of the window by the top limb of the divisor, or the
      largest limb when that would not fit. */
  ghost predicate IsTrial(trial: limb, w: seq<limb>, b1: limb) {
    && |w| >= 2
    && var n := |w| - 1;
       if w[n] >= b1 then trial == BASE - 1
       else Mul(trial, b1) <= w[n] * BASE + w[n - 1] < Mul(trial, b1) + b1
  }

  /** One quotient digit of mp_divnorm: trial digit, multiply and subtract, add back while negative. */
  method DivDigit(a: array<limb>, i: nat, b: array<limb>, bo: nat, nb: nat, b1: limb, inv: limb, useInverse: bool)
    returns (q: limb, ghost trial: limb)
    requires i + nb < a.Length && bo + nb <= b.Length && nb >= 2 && a != b
    requires b1 == b[bo + nb - 1] && b1 >= HALF
    requires useInverse ==> IsInverse(inv, b1)
    requires Val(a[i..i + nb + 1]) < Mul(BASE, Val(b[bo..bo + nb]))
    modifies a
    ensures old(Val(a[i..i + nb + 1])) == Mul(q, Val(b[bo..bo + nb])) + Val(a[i..i + nb])
    ensures Val(a[i..i + nb]) < Val(b[bo..bo + nb])
    ensures a[i + nb] == 0
    ensures IsTrial(trial, old(a[i..i + nb + 1]), b1) && q <= trial <= q + 2
    ensures Untouched(a, i, i + nb + 1)
  {
    hide Mul, Val, Pow;
    ghost var w, d, p := Val(a[i..i + nb + 1]), Val(b[bo..bo + nb]), Pow(nb);
    ValBound(b[bo..bo + nb]);
    ValPositive(b[bo..bo + nb]);
    q := TrialLimb(a, i, b, bo, nb, b1, inv, useInverse);
    trial := q;
    ghost var low := Val(a[i..i + nb]);
    ValSegment(a[..], i, nb);
    assert a[..][i..i + nb + 1] == a[i..i + nb + 1] && a[..][i..i + nb] == a[i..i + nb];
    var r := MpSubMul1(a, i, b, bo, nb, q);
    var v := a[i + nb];
    ResidueStart(low, v, r, p, w, q, d, Val(a[i..i + nb]));
    var t := (v - r) % BASE;
    ghost var cur := a[i..i + nb];
    a[i + nb] := t;
    assert a[i..i + nb] == cur;
    if t > v {
      q := AddBack(a, i, b, bo, nb, q, w);
      AtMostTwo(w, trial, q, d);
    } else {
      ResidueFinal(Val(cur), t, p, w, q, d);
    }
  }

  lemma AtMostTwo(w: int, trial: int, q: int, d: int)
    requires 0 <= q && w < Mul(q, d) + d
    requires trial >= 2 ==> Mul(trial - 2, d) <= w
    requires d > 0
    ensures trial - q <= 2
  {
    if trial - 2 > q {
      MulMono(q + 1, trial - 2, d);
      MulDist(q, 1, d);
    }
  }

  lemma ValPositive(d: seq<limb>)
    requires |d| > 0 && d[|d| - 1] > 0
    ensures Val(d) > 0
  {
    MulMono(1, d[|d| - 1], Pow(|d| - 1));
  }

  /** The add-back loop: the window holds a negative residue in two's complement; each round lowers
      the digit by one, and the wrap of the top limb to zero ends it. */
  method AddBack(a: array<limb>, i: nat, b: array<limb>, bo: nat, nb: nat, q0: limb, ghost w: nat) returns (q: limb)
    requires i + nb < a.Length && bo + nb <= b.Length && a != b
    requires Val(b[bo..bo + nb]) > 0
    requires Residue(Val(a[i..i + nb]), a[i + nb] - BASE, Pow(nb), w, q0, Val(b[bo..bo + nb]))
    modifies a
    ensures w == Mul(q, Val(b[bo..bo + nb])) + Val(a[i..i + nb])
    ensures Val(a[i..i + nb]) < Val(b[bo..bo + nb])
    ensures a[i + nb] == 0 && q <= q0
    ensures Untouched(a, i, i + nb + 1)
  {
    hide Mul, Val, Pow;
    ghost var d, p := Val(b[bo..bo + nb]), Pow(nb);
    q := q0;
    while true
      invariant Residue(Val(a[i..i + nb]), a[i + nb] - BASE, p, w, q, d)
      invariant Untouched(a, i, i + nb + 1) && q <= q0
      decreases q
    {
      ghost var s := a[i + nb] - BASE;
      ghost var low := Val(a[i..i + nb]);
      ValBound(a[i..i + nb]);
      ResidueNegative(low, s, p, w, q, d);
      LowerDigit(w, q, d);
      q := q - 1;
      var c := MpAdd(a, i, a, i, b, bo, nb, 0);
      ghost var cur := a[i..i + nb];
      ResidueUp(low, s, p, w, q + 1, d, Val(cur), c);
      if c != 0 {
        a[i + nb] := (a[i + nb] + 1) % BASE;
        assert a[i..i + nb] == cur;
        if a[i + nb] == 0 {
          ValBound(b[bo..bo + nb]);
          ResidueFinal(Val(cur), 0, p, w, q, d);
          return;
        }
      }
    }
  }

  lemma LowerDigit(w: int, q: int, d: int)
    requires w - Mul(q, d) < 0
    ensures w - Mul(q - 1, d) < d
  {
    MulDist(q, 1, d);
  }

  /** The invariant of long division with i digits still to come: Q holds the digits found so far,
      x is the value of the low limbs that have not been divided yet. */
  ghost predicate LongDivision(t: int, Q: seq<limb>, i: nat, d: int, x: int) {
    t == Mul(Mul(Val(Q), Pow(i)), d) + x
  }

  lemma LongDivisionStart(t: int, q: limb, n: nat, d: int, l: int, w: int, w': int)
    requires t == l + Mul(Pow(n), w)
    requires w == Mul(q, d) + w'
    ensures LongDivision(t, [q], n, d, l + Mul(Pow(n), w'))
  {
    ValOne([q]);
    var p := Pow(n);
    MulDist(q * d, w', p);
    assert q * d * p == q * p * d;
  }

  lemma LongDivisionStep(t: int, Q: seq<limb>, q: limb, i: nat, d: int, l: int, w: int, w': int)
    requires LongDivision(t, Q, i + 1, d, l + Mul(Pow(i), w))
    requires w == Mul(q, d) + w'
    ensures LongDivision(t, [q] + Q, i, d, l + Mul(Pow(i), w'))
  {
    ValCons(q, Q);
    LongDivisionArith(t, Val(Q), Val([q] + Q), q, Pow(i), Pow(i + 1), d, l, w, w');
  }

  lemma LongDivisionArith(t: int, vq: int, vq': int, q: int, p: int, p': int, d: int, l: int, w: int, w': int)
    requires t == vq * p' * d + (l + p * w)
    requires w == q * d + w' && vq' == q + BASE * vq && p' == p * BASE
    ensures t == vq' * p * d + (l + p * w')
  {
    MulDist(q * d, w', p);
    MulDist(q, BASE * vq, p);
    MulDist(q * p, BASE * vq * p, d);
    assert vq * p' * d == BASE * vq * p * d;
    assert q * d * p == q * p * d;
  }

  /** The next window is below BASE times the divisor because the previous remainder is below it. */
  lemma NextWindow(s: seq<limb>, i: nat, n: nat, d: nat)
    requires i + 1 + n <= |s| && Val(s[i + 1..i + 1 + n]) < d
    ensures Val(s[i..i + n + 1]) < Mul(BASE, d)
  {
    assert s[i..i + n + 1] == [s[i]] + s[i + 1..i + 1 + n];
    ValCons(s[i], s[i + 1..i + 1 + n]);
  }

  /** A normalized divisor of n limbs is at least half of BASE^n. */
  lemma NormalizedHalf(d: seq<limb>)
    requires |d| > 0 && d[|d| - 1] >= HALF
    ensures Pow(|d|) <= 2 * Val(d) && Val(d) < Pow(|d|) && Val(d) > 0
  {
    ValBound(d);
    ValTop(d);
    MulMono(HALF, d[|d| - 1], Pow(|d| - 1));
  }

  /** With a normalized divisor the top quotient limb is 0 or 1. */
  lemma TopQuotientLimb(q: seq<limb>, a: seq<limb>, d: seq<limb>)
    requires |d| > 0 && d[|d| - 1] >= HALF && |q| >= 1 && |a| == |q| - 1 + |d|
    requires Mul(Val(q), Val(d)) <= Val(a)
    ensures q[|q| - 1] <= 1
  {
    hide Mul, Val, Pow;
    var n := |q| - 1;
    NormalizedHalf(d);
    ValBound(a);
    PowAdd(n, |d|);
    ValTop(q);
    TopQuotientArith(Val(q), q[n], Pow(n), Val(d), Pow(|d|), Val(a));
  }

  lemma TopQuotientArith(vq: int, top: int, p: int, d: int, pd: int, va: int)
    requires Mul(top, p) <= vq && Mul(vq, d) <= va < Mul(p, pd) && pd <= 2 * d && p > 0 && d > 0
    ensures top <= 1
  {
    if top >= 2 {
      MulMono(2, top, p);
      MulMono(2 * p, vq, d);
      MulMono(pd, 2 * d, p);
    }
  }

  /** The first digit: 1 if the top nb limbs reach the divisor, 0 otherwise. */
  method FirstDigit(a: array<limb>, n: nat, b: array<limb>, bo: nat, nb: nat) returns (q: limb)
    requires n + nb <= a.Length && bo + nb <= b.Length && nb >= 1
    ensures q == if Val(a[n..n + nb]) >= Val(b[bo..bo + nb]) then 1 else 0
  {
    hide Mul, Val, Pow;
    ghost var A, B := a[n..n + nb], b[bo..bo + nb];
    q := 1;
    var j := nb;
    while j > 0
      invariant 0 <= j <= nb && q == 1
      invariant A[j..] == B[j..]
    {
      j := j - 1;
      if a[n + j] != b[bo + j] {
        CompareAt(A, B, j);
        CompareAt(B, A, j);
        if a[n + j] < b[bo + j] {
          q := 0;
        }
        return;
      }
      assert A[j..] == [A[j]] + A[j + 1..] && B[j..] == [B[j]] + B[j + 1..];
    }
    assert A == A[0..] && B == B[0..];
  }

  /** libbf.c mp_divnorm, base case with nb >= 2: the quotient goes to q[0..n], the remainder stays in
      the low nb limbs of a. */
  method MpDivNormBase(q: array<limb>, qo: nat, a: array<limb>, ao: nat, na: nat, b: array<limb>, bo: nat, nb: nat)
    requires nb >= 2 && na >= nb
    requires qo + (na - nb) + 1 <= q.Length && ao + na <= a.Length && bo + nb <= b.Length
    requires q != a && q != b && a != b
    requires b[bo + nb - 1] >= HALF
    modifies q, a
    ensures Mul(Val(q[qo..qo + (na - nb) + 1]), Val(b[bo..bo + nb])) + Val(a[ao..ao + nb]) == old(Val(a[ao..ao + na]))
    ensures Val(a[ao..ao + nb]) < Val(b[bo..bo + nb])
    ensures q[qo + (na - nb)] <= 1
    ensures Untouched(q, qo, qo + (na - nb) + 1) && Untouched(a, ao, ao + na)
  {
    hide Mul, Val, Pow;
    ghost var A := a[ao..ao + na];
    var n := na - nb;
    var b1 := b[bo + nb - 1];
    var inv: limb := 0;
    if n >= 3 {
      inv := Udiv1NormInit(b1);
    }
    ghost var D := b[bo..bo + nb];
    ghost var d, t := Val(D), Val(a[ao..ao + na]);
    NormalizedHalf(D);
    ghost var Q := DivTop(q, qo, a, ao, na, b, bo, nb);
    var i := n;
    while i > 0
      invariant 0 <= i <= n && |Q| == n - i + 1
      invariant q[qo + i..qo + n + 1] == Q
      invariant LongDivision(t, Q, i, d, Val(a[ao..ao + i + nb]))
      invariant Val(a[ao + i..ao + i + nb]) < d
      invariant Untouched(q, qo, qo + n + 1) && Untouched(a, ao, ao + na)
    {
      i := i - 1;
      var digit := DivNext(a, ao, i, b, bo, nb, b1, inv, n >= 3, t, Q);
      q[qo + i] := digit;
      assert q[qo + i..qo + n + 1] == [digit] + Q;
      Q := [digit] + Q;
    }
    LongDivisionEnd(t, Q, d, Val(a[ao..ao + nb]));
    TopQuotientLimb(q[qo..qo + n + 1], A, D);
  }

  lemma LongDivisionEnd(t: int, Q: seq<limb>, d: int, x: int)
    requires LongDivision(t, Q, 0, d, x)
    ensures Mul(Val(Q), d) + x == t
  {
    assert Pow(0) == 1;
  }

  /** The first iteration of mp_divnorm: compare, and subtract the divisor from the top limbs once. */
  method DivTop(q: array<limb>, qo: nat, a: array<limb>, ao: nat, na: nat, b: array<limb>, bo: nat, nb: nat)
    returns (ghost Q: seq<limb>)
    requires nb >= 2 && na >= nb
    requires qo + (na - nb) + 1 <= q.Length && ao + na <= a.Length && bo + nb <= b.Length
    requires q != a && q != b && a != b
    requires b[bo + nb - 1] >= HALF
    modifies q, a
    ensures |Q| == 1 && q[qo + (na - nb)..qo + (na - nb) + 1] == Q
    ensures LongDivision(old(Val(a[ao..ao + na])), Q, na - nb, Val(b[bo..bo + nb]), Val(a[ao..ao + na]))
    ensures Val(a[ao + (na - nb)..ao + na]) < Val(b[bo..bo + nb])
    ensures Untouched(q, qo + (na - nb), qo + (na - nb) + 1) && Untouched(a, ao, ao + na)
  {
    hide Mul, Val, Pow;
    var n := na - nb;
    ghost var L, W, d := a[ao..ao + n], a[ao + n..ao + na], Val(b[bo..bo + nb]);
    assert a[ao..ao + na] == L + W;
    ValConcat(L, W);
    ValBound(W);
    NormalizedHalf(b[bo..bo + nb]);
    var top := FirstDigit(a, ao + n, b, bo, nb);
    q[qo + n] := top;
    MulUnit(d);
    if top != 0 {
      var c := MpSub(a, ao + n, a, ao + n, b, bo, nb, 0);
      ValBound(a[ao + n..ao + na]);
      NoBorrow(Val(a[ao + n..ao + na]), c, Pow(nb));
    }
    assert a[ao..ao + n] == L;
    assert a[ao..ao + na] == L + a[ao + n..ao + na];
    ValConcat(L, a[ao + n..ao + na]);
    LongDivisionStart(old(Val(a[ao..ao + na])), top, n, d, Val(L), Val(W), Val(a[ao + n..ao + na]));
    Q := [top];
  }

  lemma NoBorrow(r: int, c: int, p: int)
    requires 0 <= c && r < p && r - Mul(c, p) >= 0 && p > 0
    ensures c == 0 && Mul(c, p) == 0
  {
    if c >= 1 {
      MulMono(1, c, p);
    }
  }

  /** One further iteration of mp_divnorm. */
  method DivNext(a: array<limb>, ao: nat, i: nat, b: array<limb>, bo: nat, nb: nat, b1: limb, inv: limb,
                 useInverse: bool, ghost t: int, ghost Q: seq<limb>)
    returns (digit: limb)
    requires ao + i + 1 + nb <= a.Length && bo + nb <= b.Length && nb >= 2 && a != b
    requires b1 == b[bo + nb - 1] && b1 >= HALF
    requires useInverse ==> IsInverse(inv, b1)
    requires Val(a[ao + i + 1..ao + i + 1 + nb]) < Val(b[bo..bo + nb])
    requires LongDivision(t, Q, i + 1, Val(b[bo..bo + nb]), Val(a[ao..ao + i + 1 + nb]))
    modifies a
    ensures LongDivision(t, [digit] + Q, i, Val(b[bo..bo + nb]), Val(a[ao..ao + i + nb]))
    ensures Val(a[ao + i..ao + i + nb]) < Val(b[bo..bo + nb])
    ensures Untouched(a, ao + i, ao + i + nb + 1)
  {
    hide Mul, Val, Pow;
    ghost var L, W, d := a[ao..ao + i], a[ao + i..ao + i + nb + 1], Val(b[bo..bo + nb]);
    assert a[ao..ao + i + 1 + nb] == L + W;
    ValConcat(L, W);
    assert a[..][ao + i + 1..ao + i + 1 + nb] == a[ao + i + 1..ao + i + 1 + nb];
    NextWindow(a[..], ao + i, nb, d);
    assert a[..][ao + i..ao + i + nb + 1] == W;
    ghost var trial;
    digit, trial := DivDigit(a, ao + i, b, bo, nb, b1, inv, useInverse);
    assert a[ao..ao + i + nb] == L + a[ao + i..ao + i + nb];
    ValConcat(L, a[ao + i..ao + i + nb]);
    LongDivisionStep(t, Q, digit, i, d, Val(L), Val(W), Val(a[ao + i..ao + i + nb]));
  }
}
