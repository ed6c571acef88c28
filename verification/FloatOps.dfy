/** The public operations (libbf.c bf_op2, bf_add, bf_sub, bf_div), whose result may be one of the operands. */
module FloatOps {
  import opened Limbs
  import opened FloatSpec
  import opened FloatRound
  import opened FloatCorrect
  import opened FloatDiv
  import opened FloatAdd

  /** bf_move */
  method Move(r: Bf, tmp: Bf)
    modifies r
    ensures r.sign == tmp.sign && r.expn == tmp.expn && r.tab == tmp.tab
  {
    r.sign, r.expn, r.tab := tmp.sign, tmp.expn, tmp.tab;
  }

  /** bf_add, and with bNeg bf_sub. */
  method AddOrSub(r: Bf, a: Bf, b: Bf, prec: nat, mode: Mode, bNeg: bool) returns (inexact: bool)
    requires Finite(a) && Finite(b) && prec >= 1 && Roomy(a) && Roomy(b)
    modifies r
    ensures IsRounded(r, old(ExactSum(a, b, bNeg)), inexact, old(a.sign), old(b.sign) != bNeg, prec, mode)
  {
    hide ExactSum, RoundedReal, Val;
    if r == a || r == b {
      var tmp := new Bf();
      inexact := BfAddInternal(tmp, a, b, prec, mode, bNeg);
      Move(r, tmp);
    } else {
      inexact := BfAddInternal(r, a, b, prec, mode, bNeg);
    }
  }

  /** bf_add */
  method BfAdd(r: Bf, a: Bf, b: Bf, prec: nat, mode: Mode) returns (inexact: bool)
    requires Finite(a) && Finite(b) && prec >= 1 && Roomy(a) && Roomy(b)
    modifies r
    ensures IsRounded(r, old(Signed(a) + Signed(b)), inexact, old(a.sign), old(b.sign), prec, mode)
  {
    inexact := AddOrSub(r, a, b, prec, mode, false);
  }

  /** bf_sub */
  method BfSub(r: Bf, a: Bf, b: Bf, prec: nat, mode: Mode) returns (inexact: bool)
    requires Finite(a) && Finite(b) && prec >= 1 && Roomy(a) && Roomy(b)
    modifies r
    ensures IsRounded(r, old(Signed(a) - Signed(b)), inexact, old(a.sign), !old(b.sign), prec, mode)
  {
    inexact := AddOrSub(r, a, b, prec, mode, true);
  }

  /** bf_div, for finite operands that are not zero. */
  method BfDivide(r: Bf, a: Bf, b: Bf, prec: nat, mode: Mode) returns (inexact: bool)
    requires a.Normal() && b.Normal() && prec >= 1
    requires a.expn - b.expn - 64 * Max(|a.tab|, (prec + 2 + 63) / 64) > EXP_ZERO + 64
    modifies r
    ensures r.Normal() && r.sign == (old(a.sign) != old(b.sign))
    ensures QuotientRounded(r, old(Val(a.tab)), old(a.Unit()), old(Val(b.tab)), old(b.Unit()), inexact, prec, mode)
  {
    hide IsQuotient, RoundedReal, Val;
    if r == a || r == b {
      var tmp := new Bf();
      inexact := BfDiv(tmp, a, b, prec, mode);
      Move(r, tmp);
    } else {
      inexact := BfDiv(r, a, b, prec, mode);
    }
  }
}
