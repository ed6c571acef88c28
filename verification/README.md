# QuickJS arithmetic, regular expressions and tables: a verified model

QuickJS vendors a big number library (`libbf.c`), a regular expression engine (`libregexp.c`), Unicode tables
(`libunicode.c`), a sort (`cutils.c`) and the number theory of its calculator (`qjscalc.js`). All of them trade
plain algorithms for fast ones. This project models the fast ones as they are written, in place and limb by
limb or byte by byte, and proves that they do what the plain ones would.

**Multi-limb arithmetic** (`Limb*.dfy`, `Reciprocal.dfy`). A limb is a 64-bit word. `Limbs.Val` is the number a
little-endian limb sequence denotes, and every method is specified by it. The carry and borrow loops keep their
wrapped comparisons and may work in place. On top stand schoolbook division with an invariant-divisor quotient
estimate, the Newton reciprocal, division by the reciprocal, and the Karatsuba square root.

**Multiplication by number theoretic transforms** (`Ntt*.dfy`, `Congruence.dfy`, `Bits.dfy`, `BitFields.dfy`).
`NttMul.FftMul` is proved to write the limbs of the product. The proof goes through the lazily reduced Stockham
transform (values of a polynomial at powers of a root), the split of long transforms into columns and rows, the
cyclic convolution of the digit polynomials (`NttCyclic`), the Chinese remainder step in mixed radix form, and
the carry pass. `NttRoots` holds the certificate for the constants of the source.

**Regular expressions** (`Regex*.dfy`). `RegexSyntax.Matches` is the backtracking semantics of section 22.2.2 of
ECMA-262 as the list of end positions in order of preference. `RegexParseState` compiles a syntax tree into byte
code the way the one-pass parser does (insertions, patched jumps, copied atoms). `RegexVm` is the interpreter as
a step machine, and `RegexExec` the interpreter as a loop over mutable stacks. `RegexExec.LreExec` ties the
ends together: compiling and running reports exactly the first match of the semantics. `RegexLaws` says of texts
and characters alone what the position tests, the dot and the search mean.

**Floating point** (`Float*.dfy`, `TwosBits.dfy`, `Radix*.dfy`). `FloatCorrect.RoundedReal` says what correct
rounding of a real number is in each of the seven modes, and `FloatCorrect.RoundedUnique` that it leaves no
choice. Division and square root keep a few guard bits and a sticky bit, addition and subtraction only as many
limbs as cancellation demands; each is proved to be the exact real result rounded once. `FloatLogic` shows
that the bitwise operations on signs and magnitudes are those of infinite two's complement. `Radix` is the
divide-and-conquer conversion between limbs and digits of another radix.

**Sets of characters** (`CharRanges.dfy`, `CaseFold.dfy`, `CaseRange.dfy`, `CaseLaws.dfy`, `PropTable.dfy`,
`CombiningOrder.dfy`). A list of points means the set of the numbers that an odd number of points precede
(`CharRanges.Member`). Over it stand the set operations, the image of a set under case folding, and the indexed
look-up in compressed tables. The contents of the tables are parameters, subject to stated conditions.

**Sorting** (`SortSpec.dfy`, `HybridSort.dfy`) and **prime numbers** (`Fermat.dfy`, `PrimeTable.dfy`,
`Primality.dfy`, `StrongPrime.dfy`, `CompositeWitness.dfy`, `MillerRabin.dfy`). The hybrid sort works in place
with its stack of fifty entries. The Miller-Rabin test rests on Fermat's little theorem, proved by permuting the
remainders. `CompositeWitness` adds the other half: every odd composite number is rejected by some base, and by at
least half of all.

## Conventions

- A C pointer into a limb buffer is an array with an offset. `Untouched(a, lo, hi)` says that only positions in
  `[lo, hi)` changed.
- Limb arithmetic that wraps is written with `% BASE` or `% DOUBLE_BASE`.
- `Mul`, `Area` and similar names for products exist so that proofs can hide multiplication.

## Findings

- **Lazy quantifiers over bodies that can match nothing** (`libregexp.c:1518-1520`). No position check is emitted
  for them. `RegexLazy.LazyExact` gives the exact condition on the text under which the code of a lazy repetition
  means the repetition: the body has no empty match. Outside it an unbounded loop never ends
  (`RegexLazy.LazyNeverHalts`) and a bounded one can report another match than the standard
  (`RegexLazy.LazyWrongMatch`). The main theorems therefore ask for `LazyFits`, which says just this of every
  lazy repetition in the pattern.
- **A transform of length one** (`libbf.c:7741-7745`). For a product of two limbs `bf_get_fft_size` returns length
  one (`NttSize.GetFftSize`), and the pass loop, which counts blocks down to two, would never stop. Callers only
  reach `fft_mul` above a threshold, so `NttMul.FftMul` asks for at least three limbs.
- **The contract of `mp_recip`** (`libbf.c:1363-1367`). The comment states the bound without the parentheses of
  algorithm 3.5 of Modern Computer Arithmetic; the code meets the bound with them.
- **Negative numbers have no inverse for `invmod`** (`qjscalc.js:217-235`). The remainders of the algorithm keep the
  sign of the number, so the test for a greatest common divisor of one fails. `Primality.InvMod` gives the exact
  condition, `Primality.NegativeInverse` an input; powers with negative exponents (`Primality.Pmod`) inherit it.
- **Small primes and `miller_rabin_test`** (`qjscalc.js:127-152`). A prime among the bases tried is rejected
  (`MillerRabin.OwnBaseFails`), and `MillerRabin.PrimePasses` says that this is the only case. `Integer.isPrime`
  tries small factors first and is right for every prime.

## Model

| member | source | states |
|---|---|---|
| LimbArith.MpAdd | quickjs_package/quickjs-2024-01-13/libbf.c:1041-1057 | the result limbs and the carry out together are the sum of the operands and the carry in, also when result and operands share the array; nothing else changes |
| LimbArith.MpAddUi | quickjs_package/quickjs-2024-01-13/libbf.c:1059-1073 | adding one limb in place, with the early exit once the carry is gone, leaves the full sum |
| LimbArith.MpSub | quickjs_package/quickjs-2024-01-13/libbf.c:1075-1092 | the result limbs minus the borrow out are the difference |
| LimbArith.MpNeg | quickjs_package/quickjs-2024-01-13/libbf.c:1094-1109 | the result is the negated number modulo the array length, with its borrow |
| LimbArith.MpSubUi | quickjs_package/quickjs-2024-01-13/libbf.c:1111-1127 | subtracting one limb in place, with the early exit |
| LimbArith.MpShr | quickjs_package/quickjs-2024-01-13/libbf.c:1129-1145 | shifting right puts the high bits given on top and loses exactly the low bits |
| LimbArith.MpMul1 | quickjs_package/quickjs-2024-01-13/libbf.c:1147-1160 | product by one limb plus a carry limb, high limb returned |
| LimbArith.MpAddMul1 | quickjs_package/quickjs-2024-01-13/libbf.c:1162-1176 | accumulating product by one limb |
| LimbArith.MpSubMul1 | quickjs_package/quickjs-2024-01-13/libbf.c:1215-1229 | subtracting product by one limb, with the limb still to subtract returned |
| LimbArith.MpMulBasecase | quickjs_package/quickjs-2024-01-13/libbf.c:1178-1189 | schoolbook multiplication writes the limbs of a * b |
| LimbArith.MpCmp | quickjs_package/quickjs-2024-01-13/libbf.c:1432-1448 | the sign of the result is the order of the two numbers |
| LimbDiv.Udiv1NormInit | quickjs_package/quickjs-2024-01-13/libbf.c:1231-1238 | the precomputed inverse is the floor of (BASE^2 - 1) / d minus BASE |
| LimbDiv.Udiv1Norm | quickjs_package/quickjs-2024-01-13/libbf.c:1240-1260 | the quotient estimated with the inverse, wrapped sums and two masked corrections give the exact two-limb quotient and remainder for every normalized d and a1 < d |
| LimbDiv.EstimateExact | quickjs_package/quickjs-2024-01-13/libbf.c:1240-1260 | the estimate with the high part of the product is at most one below the true quotient limb before the corrections |
| LimbDiv.MpDiv1Norm | quickjs_package/quickjs-2024-01-13/libbf.c:1262-1282 | division by one limb: a = q * b + r with r < b |
| LimbDivLong.DivDigit | quickjs_package/quickjs-2024-01-13/libbf.c:1322-1357 | one digit of the schoolbook loop: the trial digit is the quotient of the top two limbs, or the largest limb; it is at most two too large, and the window becomes the remainder |
| LimbDivLong.MpDivNormBase | quickjs_package/quickjs-2024-01-13/libbf.c:1292-1361 | schoolbook division ends with a = q * b + r, 0 <= r < b and a top quotient limb of at most one |
| LimbDivFast.MpDivNorm | quickjs_package/quickjs-2024-01-13/libbf.c:1286-1361 | the same contract for every size, whichever of the three algorithms is chosen |
| LimbDivFast.MpRecip | quickjs_package/quickjs-2024-01-13/libbf.c:1363-1429 | Newton reciprocal of every normalized a: a * r < BASE^(2n) < a * (r + 2), with a top limb of one and no carry lost in the final addition |
| Reciprocal.NewtonStep | quickjs_package/quickjs-2024-01-13/libbf.c:1387-1424 | one Newton step: from the reciprocal of the high half to the reciprocal of the whole, with the truncations of the code |
| LimbDivFast.MpDivNormLarge | quickjs_package/quickjs-2024-01-13/libbf.c:1449-1539 | division by multiplication with the reciprocal: same contract as schoolbook division, with the top limb; the approximate quotient is never above the true one and at most thirteen below, which bounds the upward correction loop |
| LimbDivFast.LargeBounds | quickjs_package/quickjs-2024-01-13/libbf.c:1469-1516 | the approximate quotient is at most the true one and the partial remainder fits one limb more than the divisor |
| LimbSqrt.MpSqrtRem1 | quickjs_package/quickjs-2024-01-13/libbf.c:1904-1947 | one-limb square root from the table: a = s * s + r with r <= 2 * s |
| LimbSqrt.MpSqrtRem2 | quickjs_package/quickjs-2024-01-13/libbf.c:1960-1989 | two-limb square root and remainder |
| LimbSqrt.KaratsubaStep | quickjs_package/quickjs-2024-01-13/libbf.c:1991-2067 | dividing the middle part by twice the high root gives a root of the whole number or one above it; the sign of the remainder tells which |
| LimbSqrt.MpSqrtRemRec | quickjs_package/quickjs-2024-01-13/libbf.c:1995-2067 | the recursion, including the shortcut for a quotient of BASE^l and the single final correction, keeps a = s * s + r, 0 <= r <= 2 * s |
| LimbSqrt.MpSqrtRem | quickjs_package/quickjs-2024-01-13/libbf.c:2069-2087 | square root of every normalized 2n-limb number: a = s * s + r with 0 <= r <= 2 * s |
| LimbSqrt.SqrtRemUnique | quickjs_package/quickjs-2024-01-13/libbf.c:1991-2087 | the two conditions determine the root and the remainder |
| LimbMul.MpMul | quickjs_package/quickjs-2024-01-13/libbf.c:1192-1211 | multiplication of any two limb arrays, through transforms when both have at least 100 limbs |
| NttRoots.RootsOk | quickjs_package/quickjs-2024-01-13/libbf.c:7302-7317 | certificate for the constants: every modulus is odd and between 2^61 and 2^62, every root squared fifty times is -1 modulo its modulus, and the inverse roots are inverse |
| NttField.ModFast | quickjs_package/quickjs-2024-01-13/libbf.c:7394-7413 | for every r below 2^125 the estimated quotient, the wrapped double-limb subtraction and the two masked corrections give the exact remainder |
| NttField.MulModFast2 | quickjs_package/quickjs-2024-01-13/libbf.c:7435-7446 | product by a constant through its precomputed quotient, fully reduced although the low limbs wrap |
| NttField.MulModFast3 | quickjs_package/quickjs-2024-01-13/libbf.c:7448-7459 | the same, below twice the modulus |
| NttField.InitField | quickjs_package/quickjs-2024-01-13/libbf.c:8275-8298 | the tables of one modulus: inverses of the lengths, powers of the root in both directions, precomputed quotients |
| NttTransform.AddMod | quickjs_package/quickjs-2024-01-13/libbf.c:7376-7383 | lazy addition modulo 2m |
| NttTransform.OnePass | quickjs_package/quickjs-2024-01-13/libbf.c:7744-7775 | one Stockham pass: all values stay below 2m and every subproblem is split into its even and odd half |
| NttStage.PassStage | quickjs_package/quickjs-2024-01-13/libbf.c:7744-7775 | a pass keeps the invariant of the transform: the subproblems side by side in the buffer have, at the powers of their root, the values of the whole polynomial at the powers of the root of the transform |
| NttTransform.NttFft | quickjs_package/quickjs-2024-01-13/libbf.c:7728-7785 | lazily reduced transform: entry q is congruent to the value of the polynomial at the q-th power of the root, and below 2m |
| NttInverse.Inversion | quickjs_package/quickjs-2024-01-13/libbf.c:7728-7785 | transforming forth and back with inverse roots multiplies every coefficient by the length |
| NttInverse.Orthogonal | quickjs_package/quickjs-2024-01-13/libbf.c:7728-7785 | the geometric sums behind the inversion, for any modulus in which the half power of the root is -1 |
| NttConv.VecMul | quickjs_package/quickjs-2024-01-13/libbf.c:7787-7808 | pointwise product scaled by the inverse of the length |
| NttColumns.MulTrig | quickjs_package/quickjs-2024-01-13/libbf.c:7810-7823 | multiplication by the powers of a twiddle factor |
| NttTransform.GetTrig | quickjs_package/quickjs-2024-01-13/libbf.c:7825-7860 | the table of the powers of the root with their quotients |
| NttConv.FftColumns | quickjs_package/quickjs-2024-01-13/libbf.c:7889-7943 | column pass of a long transform, sixteen columns at a time, forward with the twist after and inverse with the twist before the column transform |
| NttRows.ConvRows | quickjs_package/quickjs-2024-01-13/libbf.c:7889-7976 | rows convolved between the two column passes give the values of the convolution of the whole |
| NttConv.NttConv | quickjs_package/quickjs-2024-01-13/libbf.c:7946-7976 | for every length, split or not: the values of the result at the powers of the root are the scaled products of the values of the factors |
| NttCyclic.ConvCoefficient | quickjs_package/quickjs-2024-01-13/libbf.c:7946-7976 | the coefficients left by ntt_conv are those of the scaled cyclic convolution, sum by sum |
| NttCyclic.CyclicValue | quickjs_package/quickjs-2024-01-13/libbf.c:7946-7976 | where the n-th power of a point is one, the cyclic convolution has the product of the values |
| NttCyclic.CyclicProduct | quickjs_package/quickjs-2024-01-13/libbf.c:8365-8449 | with room for the degrees the cyclic convolution is the product of the polynomials, as integers |
| NttCyclic.CyclicBound | quickjs_package/quickjs-2024-01-13/libbf.c:8313-8360 | coefficients of a convolution of n digits up to M are at most n * M * M |
| BitFields.GetBits | quickjs_package/quickjs-2024-01-13/libbf.c:334-350 | the 64 bits of the number at any bit position, zeros beyond the end |
| BitFields.PutBits | quickjs_package/quickjs-2024-01-13/libbf.c:7246-7263 | or-ing a limb at any bit position adds it there, cut off at the end of the array |
| NttLoad.DigitParts | quickjs_package/quickjs-2024-01-13/libbf.c:7999-8030 | a digit of up to 188 bits put together from up to three limbs, in the two parts that are reduced one after the other |
| NttLoad.LimbToNtt | quickjs_package/quickjs-2024-01-13/libbf.c:7980-8044 | every row holds the digits of the number modulo its modulus, then zeros |
| NttLoad.DigitsEval | quickjs_package/quickjs-2024-01-13/libbf.c:7980-8044 | the digits evaluate to the number |
| NttGarner.InitCr | quickjs_package/quickjs-2024-01-13/libbf.c:8300-8312 | the quotients precomputed for the inverses of the moduli modulo each other |
| NttGarner.CrOk | quickjs_package/quickjs-2024-01-13/libbf.c:7311-7316 | every table entry is the inverse of its first modulus modulo its second |
| NttGarner.MixedRadix | quickjs_package/quickjs-2024-01-13/libbf.c:8185-8199 | the elimination loop turns residues into the mixed radix digits of the one number below the product of the moduli |
| NttStore.FromMixed | quickjs_package/quickjs-2024-01-13/libbf.c:8201-8223 | mixed radix digits and the carry of the previous digits back to limbs, with no overflow in the last limb |
| NttStore.WriteDigit | quickjs_package/quickjs-2024-01-13/libbf.c:8233-8239 | the low dpl bits are added at the digit position |
| NttStore.ShiftCarry | quickjs_package/quickjs-2024-01-13/libbf.c:8240-8251 | what is left after dpl bits, for every shift, becomes the carry |
| NttStore.NttToLimb | quickjs_package/quickjs-2024-01-13/libbf.c:8153-8253 | the carry pass rebuilds the integer whose digits in base 2^dpl are the coefficients; nothing is carried out at the end |
| NttSize.FindDpl | quickjs_package/quickjs-2024-01-13/libbf.c:8326-8350 | the largest digit size that is admissible for a number of moduli, with the least length for it, or none if there is no admissible size |
| NttSize.GetFftSize | quickjs_package/quickjs-2024-01-13/libbf.c:8315-8360 | the cheapest of all admissible sizes with digits no longer than those the search starts from; none is found, and the source aborts, exactly above 2^52 limbs; the length is one exactly for products of at most two limbs |
| NttSize.SizeExists | quickjs_package/quickjs-2024-01-13/libbf.c:8351-8352 | there is an admissible size exactly up to 2^52 limbs |
| NttSize.ModuliProduct | quickjs_package/quickjs-2024-01-13/libbf.c:7301-7304 | the bit counts of ntt_int_bits are below the products of the moduli |
| NttMul.NttStaticInit | quickjs_package/quickjs-2024-01-13/libbf.c:8253-8313 | the tables of all moduli |
| NttMul.ConvRowOk | quickjs_package/quickjs-2024-01-13/libbf.c:8410-8425 | for one modulus: residues of the digit polynomials in, residues of their cyclic convolution out |
| NttMul.ProductFacts | quickjs_package/quickjs-2024-01-13/libbf.c:8365-8449 | the convolution of the digits of the factors does not wrap, its coefficients stay below the product of the moduli and it evaluates to the product |
| NttMul.FftMul | quickjs_package/quickjs-2024-01-13/libbf.c:8365-8449 | fft_mul writes exactly the limbs of a * b, in both memory modes |
| RegexCode.DecodeEncode | quickjs_package/quickjs-2024-01-13/libregexp-opcode.h:27-57 | decoding gives back every encodable instruction, so jumps, operands and range tables survive the byte string |
| RegexScan.MinWidthSound | quickjs_package/quickjs-2024-01-13/libregexp.c:885-940 | no match is shorter than the computed width |
| RegexCompiler.NeedCheckAdvance | quickjs_package/quickjs-2024-01-13/libregexp.c:893-940 | the scan over the bytes decides whether the code may leave the position unchanged |
| RegexScan.NoCheckAdvances | quickjs_package/quickjs-2024-01-13/libregexp.c:885-940 | where the scan sees no need for a check, every match advances |
| RegexCompiler.IsSimpleQuantifier | quickjs_package/quickjs-2024-01-13/libregexp.c:947-985 | the scan over the bytes counts the characters of straight-line code, or refuses |
| RegexScan.SimpleMatches | quickjs_package/quickjs-2024-01-13/libregexp.c:942-985 | a pattern accepted as simple has at most one match, of exactly the counted width |
| RegexCompiler.ComputeStackSize | quickjs_package/quickjs-2024-01-13/libregexp.c:1693-1736 | the linear scan returns the highest net number of pushed counters of any prefix |
| RegexParseState.ParseState.Insert | quickjs_package/quickjs-2024-01-13/libregexp.c:111-118 | insertion shifts the rest of the byte code up |
| RegexParseState.ParseState.Quantify | quickjs_package/quickjs-2024-01-13/libregexp.c:1495-1613 | every quantifier form, with its insertions, copies of the atom and patched offsets, leaves exactly the intended instructions behind the unchanged prefix |
| RegexParseState.ParseState.EmitRange | quickjs_package/quickjs-2024-01-13/libregexp.c:765-800 | a class is emitted as its interval table, in the 16-bit form when it fits, or refused when too long |
| RegexParseState.ParseState.Parse | quickjs_package/quickjs-2024-01-13/libregexp.c:1133-1657 | compiling a pattern appends the byte string of its instructions |
| RegexCompile.LreCompile | quickjs_package/quickjs-2024-01-13/libregexp.c:1742-1822 | header, flags, stack size and program; refusal exactly for a class that is too long or more than 255 counters |
| RegexCompile.CompiledRuns | quickjs_package/quickjs-2024-01-13/libregexp.c:1742-1822 | what is compiled, run by the step machine, halts with the result of the semantics |
| RegexOffers.OffersAppend | quickjs_package/quickjs-2024-01-13/libregexp.c:2010-2413 | enumeration by backtracking composes: everything above the new frames, then what the saved state offers |
| RegexCorrect.EmitImplements | quickjs_package/quickjs-2024-01-13/libregexp.c:1133-1691 | wherever the code of a pattern stands, from any position, counter stack and saved states, it offers exactly the matches of the pattern in the order of section 22.2.2 of ECMA-262 |
| RegexLoops.StarFrom | quickjs_package/quickjs-2024-01-13/libregexp.c:1537-1560 | unbounded loop with or without position check |
| RegexLoops.CountFrom | quickjs_package/quickjs-2024-01-13/libregexp.c:1562-1585 | counted loop |
| RegexLoops.RepSplit | quickjs_package/quickjs-2024-01-13/libregexp.c:1588-1613 | mandatory rounds and optional rounds together are the repetition |
| RegexGreedy.GreedyFrom | quickjs_package/quickjs-2024-01-13/libregexp.c:2369-2408 | the greedy instruction with its decrementing saved state offers the same positions in the same order as the loop, longest first down to the minimum |
| RegexCorrect.GreedyFormFrom | quickjs_package/quickjs-2024-01-13/libregexp.c:1495-1509 | the fast path is used only where it refines the ordinary loop |
| RegexProgram.ProgramRuns | quickjs_package/quickjs-2024-01-13/libregexp.c:2010-2413 | the run of a compiled program halts with the first choice at the first matching position, or with no match |
| RegexProgram.ResultUnique | quickjs_package/quickjs-2024-01-13/libregexp.c:2010-2413 | a run has one result |
| RegexStack.EmitSafe | quickjs_package/quickjs-2024-01-13/libregexp.c:1693-1736 | in emitted code every jump and every fall through lands on an instruction with the scanned depth |
| RegexStack.BoundaryUnique | quickjs_package/quickjs-2024-01-13/libregexp.c:1693-1736 | the depth at an address is determined |
| RegexDepth.StackExact | quickjs_package/quickjs-2024-01-13/libregexp.c:1693-1736 | in every reachable state of any length of run, the counter stack has exactly the scanned depth at the program counter |
| RegexDepth.SavedStackExact | quickjs_package/quickjs-2024-01-13/libregexp.c:1971-2005 | the same for the counter stack of every saved state, so after backtracking and lookahead restores |
| RegexRange.RangeTest | quickjs_package/quickjs-2024-01-13/libregexp.c:2297-2365 | the binary search over the interval table decides membership |
| RegexScan.ClassAgrees | quickjs_package/quickjs-2024-01-13/libregexp.c:765-800 | the emitted table accepts exactly the characters of the class, also with the 16-bit encoding of infinity |
| RegexExec.ExecContext.PushState | quickjs_package/quickjs-2024-01-13/libregexp.c:1971-2005 | a saved state records captures, counters and position |
| RegexExec.ExecContext.ExecBacktrack | quickjs_package/quickjs-2024-01-13/libregexp.c:2010-2413 | the interpreter loop over its mutable stacks follows the step machine and terminates |
| RegexExec.LreExec | quickjs_package/quickjs-2024-01-13/libregexp.c:2010-2446 | lre_exec on what lre_compile returned terminates within the recorded stack size and reports exactly the match of the semantics, or none |
| RegexExec.ExecContext.TestPosition | quickjs_package/quickjs-2024-01-13/libregexp.c:2148-2241 | the branches of the interpreter for line start, line end and word boundaries decide what the semantics says |
| RegexLaws.LineMatches | quickjs_package/quickjs-2024-01-13/libregexp.c:2148-2165 | `^` matches exactly at 0 and `$` exactly at the end of the text; with the multiline flag also behind, and before, one of the characters 10, 13, 0x2028 and 0x2029; neither consumes anything |
| RegexLaws.DotMatches | quickjs_package/quickjs-2024-01-13/libregexp.c:2166-2172 | the dot consumes exactly the characters other than these four |
| RegexLaws.BoundaryMatches | quickjs_package/quickjs-2024-01-13/libregexp.c:2220-2241 | a word boundary is where exactly one of the two neighbours is an ASCII letter, a digit or the underscore; the negated test matches everywhere else |
| RegexLaws.AnyRepeated | quickjs_package/quickjs-2024-01-13/libregexp.c:1470-1673 | a repetition of any character, of any bounds, ends at every position from the least to the greatest number of characters, downwards if greedy and upwards if lazy; the bound 2^31 - 1 is no bound |
| RegexLaws.SearchFirst | quickjs_package/quickjs-2024-01-13/libregexp.c:1757-1764 | the result is the first position with a match and the first choice there, or that there is none; with the sticky flag only the first position counts |
| RegexLaws.AnchoredStart | quickjs_package/quickjs-2024-01-13/libregexp.c:2148-2156 | without the multiline flag a pattern that begins with `^` is found at 0 or nowhere |
| RegexLaws.AnchoredLines | quickjs_package/quickjs-2024-01-13/libregexp.c:2148-2156 | in general it is found only at 0 or, with the flag, behind a character that ends a line |
| RegexLaws.AnchoredEnd | quickjs_package/quickjs-2024-01-13/libregexp.c:2157-2165 | a match of a pattern that ends with `$` ends at the end of the text or, with the flag, where a line ends |
| RegexLaws.FlagBits | quickjs_package/quickjs-2024-01-13/libregexp.h:33-38 | the multiline flag is bit 2 and the sticky flag bit 5 of the flags byte |
| RegexPaths.OffersUnique | quickjs_package/quickjs-2024-01-13/libregexp.c:2010-2413 | where the code ends, two enumerations of one state are the same |
| RegexUnchecked.BoundedFrom | quickjs_package/quickjs-2024-01-13/libregexp.c:1515-1585 | a bounded lazy repetition offers the rounds that stay in place too |
| RegexUnchecked.LazyLonger | quickjs_package/quickjs-2024-01-13/libregexp.c:1515-1585 | that is strictly more than the standard allows wherever the body has an empty match |
| RegexLazyLoop.LazyLoopFrom | quickjs_package/quickjs-2024-01-13/libregexp.c:1537-1560 | an unbounded lazy loop is right from every position on from which rounds advance |
| RegexLazyLoop.UnboundedOffersNothing | quickjs_package/quickjs-2024-01-13/libregexp.c:1537-1560 | at a position where the body has an empty match no finite list is ever offered |
| RegexLazy.LazyExact | quickjs_package/quickjs-2024-01-13/libregexp.c:1515-1520 | for every lazy repetition with optional rounds: its code means the repetition wherever it stands if and only if the body has no empty match on the text |
| RegexLazy.LazyNeverHalts | quickjs_package/quickjs-2024-01-13/libregexp.c:1518-1520 | (?:)*?a on the empty text: no match, but the interpreter never halts |
| RegexLazy.LazyWrongMatch | quickjs_package/quickjs-2024-01-13/libregexp.c:1518-1520 | zero to two lazy rounds of (nothing or a or aaa) before a lookahead for aa or a at the end, on the text aaaa: the standard finds the match that ends at 2, the interpreter reports 3 |
| RegexLazy.AdvancesFit | quickjs_package/quickjs-2024-01-13/libregexp.c:1518-1520 | a condition on the pattern alone that is enough on every text |
| FloatSpec.RoundIntOk | quickjs_package/quickjs-2024-01-13/libbf.c:410-463 | the rounding used as specification is the correct rounding of section 4.3 of IEEE 754 for each mode: the multiple of the unit that is nearest, next below, next above, nearer to zero or farther from it |
| FloatSpec.StickyRounds | quickjs_package/quickjs-2024-01-13/libbf.c:410-463 | the integer part of a real with a sticky bit for its fraction rounds like the real itself, in every mode, when two bits lie below the precision |
| FloatRound.BfGetRndAdd | quickjs_package/quickjs-2024-01-13/libbf.c:410-463 | whether the magnitude is rounded up, and whether anything is lost, found from the bit below the precision and a scan of the bits below that |
| FloatRound.BfRound | quickjs_package/quickjs-2024-01-13/libbf.c:501-606 | the result, in canonical form, is the number rounded once, with the right inexact flag; a carry through all limbs moves the exponent |
| FloatRound.BfNormalizeAndRound | quickjs_package/quickjs-2024-01-13/libbf.c:607-642 | the same for mantissas with leading zeros; zero stays zero |
| FloatCorrect.StickyCorrect | quickjs_package/quickjs-2024-01-13/libbf.c:501-606 | what the integer routines return is the real number rounded in the unit that gives it exactly prec bits, with the right inexact flag |
| FloatCorrect.RoundedUnique | quickjs_package/quickjs-2024-01-13/libbf.c:501-606 | the real, the precision, the sign and the mode determine the rounded number and the flag, in every mode but the faithful one |
| FloatCorrect.ResultUnique | quickjs_package/quickjs-2024-01-13/libbf.c:501-606 | so every field of a canonical result is determined |
| FloatCorrect.FittingStays | quickjs_package/quickjs-2024-01-13/libbf.c:501-606 | a number that has no more than prec bits is not changed |
| FloatDiv.DivMantissa | quickjs_package/quickjs-2024-01-13/libbf.c:1699-1730 | the quotient limbs of the widened dividend, with bit 0 set when there is a remainder |
| FloatDiv.BfDiv | quickjs_package/quickjs-2024-01-13/libbf.c:1671-1741 | the real quotient of two numbers rounded once, at every precision and in every mode, with inexact flag and canonical mantissa |
| FloatSqrt.SqrtMantissa | quickjs_package/quickjs-2024-01-13/libbf.c:2170-2198 | the root limbs of the truncated and perhaps halved radicand, with bit 0 set when anything was cut off or is left |
| FloatSqrt.BfSqrt | quickjs_package/quickjs-2024-01-13/libbf.c:2145-2207 | the real square root rounded once, at every precision and in every mode |
| FloatAlign.SecondLimb | quickjs_package/quickjs-2024-01-13/libbf.c:824-1010 | reading at a bit offset gives the limbs of the shifted number, also outside its limbs on either side |
| FloatCancel.CountCancelledBits | quickjs_package/quickjs-2024-01-13/libbf.c:833-883 | the difference of the aligned mantissas loses at most the counted number of leading bits |
| FloatSum.SkipLimbs | quickjs_package/quickjs-2024-01-13/libbf.c:968-984 | one turn of the loop stands for all limbs outside both operands: neither carry nor sticky bit is lost |
| FloatSum.SumMantissas | quickjs_package/quickjs-2024-01-13/libbf.c:945-1007 | the top limbs of the sum or difference, with a sticky bit for the limbs below |
| FloatAdd.BfCmpU | quickjs_package/quickjs-2024-01-13/libbf.c:753-778 | the order of two magnitudes |
| FloatAdd.ResultLength | quickjs_package/quickjs-2024-01-13/libbf.c:926-944 | the chosen length leaves two bits below the precision for the rounding, whatever is cancelled |
| FloatAdd.BfAddInternal | quickjs_package/quickjs-2024-01-13/libbf.c:885-1027 | the exact sum or difference of every two finite numbers rounded once; an exact zero has the sign the mode asks for |
| FloatOps.BfAdd | quickjs_package/quickjs-2024-01-13/libbf.c:2209-2229 | the same for the public operation, whose result may be one of the operands |
| FloatOps.BfSub | quickjs_package/quickjs-2024-01-13/libbf.c:2231-2235 | the exact difference rounded once |
| FloatOps.BfDivide | quickjs_package/quickjs-2024-01-13/libbf.c:2237-2241 | the real quotient rounded once, also when the result is one of the operands |
| FloatExact.ExactWhenWide | quickjs_package/quickjs-2024-01-13/libbf.c:2267-2278 | an integer result of at most prec bits is exact |
| TwosBits.LogicBit | quickjs_package/quickjs-2024-01-13/libbf.c:2331-2342 | the bitwise operations act digit by digit |
| FloatLogic.LogicLimbs | quickjs_package/quickjs-2024-01-13/libbf.c:2382-2412 | the limbs that are computed, with masks and the shortened length for a positive AND, have all the digits of the result in two's complement |
| FloatLogic.BfLogicOp | quickjs_package/quickjs-2024-01-13/libbf.c:2344-2428 | AND, OR and XOR of integers in sign-magnitude form, for all signs and sizes, act digit by digit on infinite two's complement |
| FloatLogic.BitwiseUnique | quickjs_package/quickjs-2024-01-13/libbf.c:2344-2428 | the digits determine the result |
| FloatLogic.BitwiseSum | quickjs_package/quickjs-2024-01-13/libbf.c:2344-2428 | in numbers: the AND and the OR of two integers add up to their sum, and the XOR is the OR minus the AND |
| Radix.PartSizes | quickjs_package/quickjs-2024-01-13/libbf.c:2724-2726 | both parts of a part have a size of the next level, n0 / 2^level or one more, so one power for each level is enough |
| Radix.LevelFits | quickjs_package/quickjs-2024-01-13/libbf.c:2763-2763 | the table of powers is never indexed out of range |
| Radix.FromRadix | quickjs_package/quickjs-2024-01-13/libbf.c:2714-2775 | the value of the digits |
| Radix.Adjust | quickjs_package/quickjs-2024-01-13/libbf.c:3441-3462 | quotient and remainder are exact after the adjustment, whatever the estimate was; the loops turn as often as the estimate is off |
| RadixEstimate.EstimateClose | quickjs_package/quickjs-2024-01-13/libbf.c:3424-3440 | with the reciprocal and the product rounded to the precisions of the code, the estimate is at most two away from the quotient |
| Radix.ToRadix | quickjs_package/quickjs-2024-01-13/libbf.c:3394-3504 | n digits below the radix whose value is the number, for every number below radix^n |
| Radix.DigitsUnique | quickjs_package/quickjs-2024-01-13/libbf.c:3394-3504 | so writing the digits of a number and reading them are inverse to each other |
| CharRanges.CharRange.Op | quickjs_package/quickjs-2024-01-13/libunicode.c:458-508 | a character is in the result of a union if it is in either list, of an intersection if it is in both, of a symmetric difference if it is in exactly one; for weakly increasing lists of points, and the points of the result strictly increase |
| CharRanges.CompressedUnique | quickjs_package/quickjs-2024-01-13/libunicode.c:428-455 | a set has only one strictly increasing list of points, so the results of all operations are determined |
| CharRanges.OpCommutes | quickjs_package/quickjs-2024-01-13/libunicode.c:458-508 | the order of the two lists does not matter |
| CharRanges.XorSplits | quickjs_package/quickjs-2024-01-13/libunicode.c:458-508 | the symmetric difference is the union without the intersection |
| CharRanges.XorUndone | quickjs_package/quickjs-2024-01-13/libunicode.c:458-508 | taken twice with the same list, the symmetric difference gives back the first list |
| CharRanges.CharRange.Compress | quickjs_package/quickjs-2024-01-13/libunicode.c:428-455 | merging touching intervals and dropping empty ones keeps the set and makes the points strictly increase |
| CharRanges.CharRange.Invert | quickjs_package/quickjs-2024-01-13/libunicode.c:522-534 | the complement among the code points below UINT32_MAX |
| CharRanges.CharRange.SortAndRemoveOverlap | quickjs_package/quickjs-2024-01-13/libunicode.c:1343-1384 | intervals in any order, overlapping or not, become an increasing list of the same set |
| CharRanges.CoveredMember | quickjs_package/quickjs-2024-01-13/libunicode.c:458-508 | in a weakly increasing list, an odd number of passed points means lying inside an interval |
| CaseFold.LreCanonicalize | quickjs_package/quickjs-2024-01-13/libunicode.c:226-261 | binary search in the runs finds the entry that folds the character |
| CaseFold.LreCaseConvEntry | quickjs_package/quickjs-2024-01-13/libunicode.c:59-149 | the conversion by an entry, with its tests on the type number and the parity of the place, gives what the entry means: the upper or lower member of a pair, the ends of a triple, the place in the partner run, the character of the extension table, or several characters |
| CaseFold.LreCaseFoldingEntry | quickjs_package/quickjs-2024-01-13/libunicode.c:192-224 | the folding by an entry: with the unicode flag the case folding, with its three special cases, otherwise the single upper case form that is not below 128 |
| CaseLaws.PairConverts | quickjs_package/quickjs-2024-01-13/libunicode.c:80-85 | in a run of pairs both members have the first as upper case and the second as lower case and folding |
| CaseLaws.TripleConverts | quickjs_package/quickjs-2024-01-13/libunicode.c:86-93 | in a run of three every member has the first as upper case and the last as lower case and folding |
| CaseLaws.InverseConversions | quickjs_package/quickjs-2024-01-13/libunicode.c:70-79 | between two runs that point at each other the two conversions are inverse, and it is said from which of them folding leads to the other |
| CaseLaws.FarUpper | quickjs_package/quickjs-2024-01-13/libunicode.c:102-111 | characters with a far upper case form fold to 32, or one, behind it and are their own lower case |
| CaseLaws.OneWay | quickjs_package/quickjs-2024-01-13/libunicode.c:112-117 | characters that convert in one direction only |
| CaseLaws.SeveralWay | quickjs_package/quickjs-2024-01-13/libunicode.c:94-148 | which conversions of which run types give several characters, and that the others leave the character alone |
| CaseLaws.AsciiCanonical | quickjs_package/quickjs-2024-01-13/libunicode.c:229-239 | below 128 the letters become lower case with the unicode flag and upper case without it, and everything else stays |
| CaseLaws.CanonicalConverts | quickjs_package/quickjs-2024-01-13/libunicode.c:192-261 | from 128 on the canonical form is the folding, or the upper case form if it is a single character from 128 on |
| CaseLaws.StaysBeyondAscii | quickjs_package/quickjs-2024-01-13/libunicode.c:213-221 | without the unicode flag no character from 128 on becomes one below (section 22.2.2.7.3 of ECMA-262) |
| CaseLaws.CanonicalTwice | quickjs_package/quickjs-2024-01-13/libunicode.c:226-261 | canonicalization is idempotent for every table whose runs point back at each other and whose other targets are at rest |
| CaseRange.UnicodeCase1 | quickjs_package/quickjs-2024-01-13/libunicode.c:1274-1341 | the points put out are the characters that the mask selects in the runs |
| CaseLaws.MaskExact | quickjs_package/quickjs-2024-01-13/libunicode.c:1279-1341 | for every mask: all characters that one of its conversions changes, and beyond them only characters that a run names as their own targets |
| CaseFold.UnmaskedStays | quickjs_package/quickjs-2024-01-13/libunicode.c:1274-1341 | a character outside the set is not changed by folding |
| CaseRange.MapPoints | quickjs_package/quickjs-2024-01-13/libunicode.c:1411-1449 | the intervals put out, merged on the way, cover exactly the folded characters; the run pointer only moves forward and never leaves the table |
| CaseRange.CrRegexpCanonicalize | quickjs_package/quickjs-2024-01-13/libunicode.c:1386-1470 | the set becomes exactly its image under canonicalization, as strictly increasing end points, for every well-formed table that agrees with the fast path |
| CaseLaws.ImageTwice | quickjs_package/quickjs-2024-01-13/libunicode.c:1386-1470 | so a canonicalized set stays the same list when it is canonicalized again |
| PropTable.UnicodeProp1 | quickjs_package/quickjs-2024-01-13/libunicode.c:1232-1269 | linear decoding of a property table gives the set its runs mean |
| PropTable.ReadLength | quickjs_package/quickjs-2024-01-13/libunicode.c:321-336 | the length of the last run of an item and the place of the next item, as both loops read them |
| PropTable.DecodeEncode | quickjs_package/quickjs-2024-01-13/libunicode.c:1245-1262 | every list of run lengths up to 2^21, written in items of one, two and three bytes with short pairs in one byte, is decoded to the same list |
| PropTable.TableOfSet | quickjs_package/quickjs-2024-01-13/libunicode.c:1232-1269 | the table written for a set without the character 0 means this set, and linear decoding gives back its list of points |
| PropTable.GetIndexPos | quickjs_package/quickjs-2024-01-13/libunicode.c:274-306 | the index leads to a block that begins at or before the character, or reports that the character is behind the table |
| PropTable.IndexOfTable | quickjs_package/quickjs-2024-01-13/libunicode.c:274-306 | an index whose entries are written as a 21-bit character and an offset behind multiples of 32, for blocks of the table, meets the condition of the look-up |
| PropTable.LreIsInTable | quickjs_package/quickjs-2024-01-13/libunicode.c:308-341 | the indexed look-up answers membership in the same set, for every well-formed table and index |
| CombiningOrder.SortCc | quickjs_package/quickjs-2024-01-13/libunicode.c:876-910 | the buffer gets its canonical order, in place |
| CombiningOrder.NormalForm | quickjs_package/quickjs-2024-01-13/libunicode.c:876-910 | two buffers get the same order if and only if exchanges of neighbours with different nonzero classes lead from one to the other |
| CombiningOrder.OrderedInOrder | quickjs_package/quickjs-2024-01-13/libunicode.c:876-910 | in the result no character follows one of a higher class unless its own class is zero |
| HybridSort.InsertionSort | quickjs_package/quickjs-2024-01-13/cutils.c:622-627 | sorts its segment, moving only items of the segment |
| HybridSort.SiftDown | quickjs_package/quickjs-2024-01-13/cutils.c:480-487 | restores the heap below one position |
| HybridSort.HeapSort | quickjs_package/quickjs-2024-01-13/cutils.c:470-502 | sorts its segment, moving only items of the segment |
| HybridSort.Median | quickjs_package/quickjs-2024-01-13/cutils.c:504-509 | the median of three |
| HybridSort.SplitAround | quickjs_package/quickjs-2024-01-13/cutils.c:548-570 | the scan from both ends leaves equal items outside, smaller ones left and larger ones right |
| HybridSort.Partition | quickjs_package/quickjs-2024-01-13/cutils.c:543-602 | smaller items, items equal to the pivot, larger items; exchanging the smaller span is enough |
| HybridSort.SplitSegment | quickjs_package/quickjs-2024-01-13/cutils.c:528-622 | the depth of a stacked segment bounds its position, so 50 entries are enough; deeper segments go to the heap sort |
| HybridSort.Rqsort | quickjs_package/quickjs-2024-01-13/cutils.c:512-629 | for every length and every total preorder the result is sorted and a permutation, and the loop ends |
| Primality.InvMod | quickjs_package/quickjs-2024-01-13/qjscalc.js:217-235 | returns the inverse if and only if there is one and the number is positive (or zero, modulo one); otherwise it throws |
| Primality.Pmod | quickjs_package/quickjs-2024-01-13/qjscalc.js:238-257 | a^b modulo m, for exponents of either sign |
| PrimeTable.ListComplete | quickjs_package/quickjs-2024-01-13/qjscalc.js:125-125 | the table lists every prime below 500 |
| StrongPrime.PrimeStrong | quickjs_package/quickjs-2024-01-13/qjscalc.js:127-152 | every prime is a strong probable prime to every base it does not divide |
| StrongPrime.SquaresPower | quickjs_package/quickjs-2024-01-13/qjscalc.js:127-152 | the i-th entry of the chain of squares is a to the power d * 2^i |
| StrongPrime.StrongMeans | quickjs_package/quickjs-2024-01-13/qjscalc.js:127-152 | for odd n = d * 2^s + 1: n is a strong probable prime to the base a if and only if a^(n-1) is one and every entry of the chain whose square is one is itself one or minus one |
| CompositeWitness.Witness | quickjs_package/quickjs-2024-01-13/qjscalc.js:127-152 | every odd composite number is exposed by a base between 1 and itself that is prime to it |
| CompositeWitness.PrimeIffStrong | quickjs_package/quickjs-2024-01-13/qjscalc.js:127-152 | an odd number is prime if and only if it is a strong probable prime to every base prime to it |
| CompositeWitness.HalfOfBases | quickjs_package/quickjs-2024-01-13/qjscalc.js:127-152 | an odd composite number is a strong probable prime to at most half of the bases below it, which is what the stated error probability 0.5^t needs of bases chosen at random |
| MillerRabin.MillerRabinTest | quickjs_package/quickjs-2024-01-13/qjscalc.js:127-152 | true exactly for the strong probable primes to the bases tried |
| MillerRabin.PrimePasses | quickjs_package/quickjs-2024-01-13/qjscalc.js:127-152 | a prime passes if and only if it is not one of the bases tried |
| MillerRabin.IsPrime | quickjs_package/quickjs-2024-01-13/qjscalc.js:259-285 | true for every prime; below 499 * 499 for nothing else; from there on if and only if no prime below 500 divides the number and it is a strong probable prime to the bases tried: 64 when no count is given. So a number accepted without a count has a^(n-1) = 1, and no square roots of one in the chain but one and minus one, for every prime a up to 311 |
| MillerRabin.TrialEnough | quickjs_package/quickjs-2024-01-13/qjscalc.js:268-279 | below 499 * 499 trial division decides |
| Primality.NegativeInverse | quickjs_package/quickjs-2024-01-13/qjscalc.js:217-235 | -1 has an inverse modulo 5 but does not meet the condition under which invmod finds one |
| MillerRabin.OwnBaseFails | quickjs_package/quickjs-2024-01-13/qjscalc.js:127-152 | with two bases the prime 3 is rejected |

## Left out

- Allocation failure and the growth of buffers: memory is taken to suffice.
- The vector form of the transforms for AVX2 and the 32-bit limbs: the scalar 64-bit code is modelled.
- LimbMul.MpMul: above 2^52 limbs, where `bf_get_fft_size` aborts the process, the model takes the basecase, so its contract speaks of every call that returns.
- NttMul.FftMul: asks for at least three limbs in all (see Findings); the flags about overlap with the result and resizing are not modelled, the result is an array of its own as in `mp_mul`.
- The cache of trigonometric tables (`get_trig` keeps them in the context): the table is computed anew.
- The text front end of the pattern parser: a syntax tree stands for the pattern text, so escapes, class syntax, group names and error messages are not modelled.
- Captures inside patterns, back references, lookbehind, ignore-case matching and surrogate pairs; match start and end are modelled.
- RegexExec.LreExec: asks for `LazyFits`; outside it the code differs from the semantics as said under Findings.
- RegexLazy.LazyExact: is about one lazy repetition with a body that is itself compiled correctly; for a whole pattern the condition on every lazy repetition is sufficient but a repetition the matcher never reaches does no harm.
- The interrupt and stack overflow checks of the interpreter.
- Floating point: NaN and infinite operands, division by zero and the exponent range (overflow, underflow, subnormal numbers) are not modelled; operands are finite and their exponents leave room below.
- `BF_FLAG_RADPNT_PREC` and `bf_rint`.
- The mantissa of a number is a field of type sequence, and the division and square root copy it into limb arrays.
- FloatLogic.BfLogicOp: infinite precision is the constant of the source, so exponents have to stay 130 below it.
- Radix.FromRadix, Radix.ToRadix: numbers are integers there, and the estimate of the quotient is a parameter that may be any function; `RadixEstimate.EstimateClose` says how close the one of the source is. `get_limb_radix` is not modelled, the limb radix is a parameter.
- Exponentials, logarithms, trigonometric functions, powers and text conversion of floating point numbers.
- CaseRange.CrRegexpCanonicalize: the tables are parameters; that the tables of the source meet the conditions is not part of this model.
- CaseFold.LreCaseConvEntry: of a conversion to several characters only their number is modelled, which is all that folding asks for.
- PropTable.TableOfSet: leaves out the character 0, because the first run of a table cannot be empty.
- CombiningOrder.SortCc: the function that gives the combining class is a parameter; decomposition and composition are not modelled.
- HybridSort.Rqsort: the items are abstract and the size of an item in bytes is one position; the choice of the exchange function by alignment is not modelled.
- HybridSort.Rqsort: the number of comparisons is not bounded.
- MillerRabin.IsPrime: arguments that are not integers throw in the source and are not modelled; no bound on the error is claimed, because the bases are the first primes and not chosen at random (see `CompositeWitness.HalfOfBases`).
- The rest of the calculator (factorization, fractions, polynomials, matrices, series).
- MillerRabin.MillerRabinTest: asks for a number of at least two, as its only caller ensures; for one the loop of the source that halves `n - 1` would not end.
- CharRanges.CharRange.Op: asks for an empty list to write to, as its callers pass; the source decides by the parity of that list.
- PropTable.LreIsInTable: the table and its index are parameters that have to fit each other (`TableOk`, `IndexOk`).
