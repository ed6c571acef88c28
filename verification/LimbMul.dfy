/** Multiplication of limb arrays (libbf.c mp_mul). */
module LimbMul {
  import opened Limbs
  import opened LimbArith
  import opened NttMul
  import opened NttSize

  const FFT_MUL_THRESHOLD: nat := 100

  /** mp_mul: transforms for two long operands, the basecase otherwise. Above MAX_LEN limbs, where the source
      aborts the process, this takes the basecase. */
  method MpMul(res: array<limb>, ro: nat, a: array<limb>, ao: nat, n1: nat, b: array<limb>, bo: nat, n2: nat)
    requires ro + n1 + n2 <= res.Length && ao + n1 <= a.Length && bo + n2 <= b.Length
    requires n2 >= 1
    requires res != a && res != b
    modifies res
    ensures Val(res[ro..ro + n1 + n2]) == Mul(Val(a[ao..ao + n1]), Val(b[bo..bo + n2]))
    ensures Untouched(res, ro, ro + n1 + n2)
  {
    hide Val, Mul;
    if n1 >= FFT_MUL_THRESHOLD && n2 >= FFT_MUL_THRESHOLD && n1 + n2 <= MAX_LEN {
      FftMul(res, ro, a, ao, n1, b, bo, n2);
      assert a[ao..ao + n1] == old(a[ao..ao + n1]) && b[bo..bo + n2] == old(b[bo..bo + n2]);
    } else {
      MpMulBasecase(res, ro, a, ao, n1, b, bo, n2);
    }
  }
}
