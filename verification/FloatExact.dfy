/** Integers as floating point numbers: at a large enough precision the operations are exact. */
module FloatExact {
  import opened Limbs
  import opened FloatSpec
  import opened FloatValue
  import opened FloatCorrect

  /** BF_PREC_INF */
  const PREC_INF: nat := 0x3fff_ffff_ffff_ffff

  /** An integer of at most prec bits is not changed. */
  lemma ExactWhenWide(v: nat, prec: nat, neg: bool, mode: Mode, n': nat, e': int, inexact: bool)
    requires v < P2(prec) && RoundedReal(v as real, prec, neg, mode, n', e', inexact)
    ensures Magnitude(n', e') == v as real && inexact == mode.Faithful?
  {
    hide P2, RoundedReal, Magnitude;
    WholeMagnitude(v);
    FittingStays(v, 0, prec, neg, mode, n', e', inexact);
  }
}
