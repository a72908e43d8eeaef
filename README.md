# Chudnovsky binary splitting for π — a Dafny model of PI.h

The program computes decimal digits of π using the Chudnovsky series. It
evaluates the series by binary splitting: `Pi_BSR` recursively computes an
integer triple (P, Q, R) for each half-open index range [a, b) and joins the
triples of two adjacent ranges. `Pi` derives the working precision and the
term count from the requested digit count. It rejects term counts that do not
fit 32 bits, runs the recursion over [0, terms) and forms the fraction that is
then divided and multiplied by 1/√10005.

This project models that core with exact integers in place of BigFloat values:

- `binary_splitting.dfy`, module `BinarySplitting`. This is the value semantics
  of `Pi_BSR`: the leaf formulas, the combine step, the midpoint split, the
  recursion `BSR` as a pure function, the number of combines, and the split of
  the thread budget.
- `closed_form.dfy`, module `ClosedForm`. This gives the closed form of the
  triple as sums and products over the leaf indices k = a+1 .. b. It proves
  that the recursion computes that closed form, so the result does not depend
  on the split point.
- `series.dfy`, module `Series`. This defines the Chudnovsky series directly
  from factorials, (-1)^k (6k)! (13591409 + 545140134 k) / ((3k)! (k!)^3
  640320^(3k)). It proves that Pi's numerator over its denominator is the
  partial sum up to k = terms, divided by 4270934400 = 426880 · 10005.
- `limits.dfy`, module `Limits`. This covers the fixed-width bookkeeping:
  - the size_t precision `(digits + 9) / 9`;
  - the term count;
  - the 32-bit limit check, both as written and corrected;
  - the uint32_t leaf factors and midpoint, as the source computes them.
- `pi.dfy`, module `PiProgram`. This is the imperative code. Class `Evaluator`
  holds the globals `iterations` and `steps`:
  - `PiBSR` writes its triple to out-parameters, reassigns P and R step by step
    in the leaf, and increments the counter once per combine;
  - `Pi` runs the orchestration as a sequence of reassignments.

  Both methods are proved against the pure functions above.
- `time_format.dfy`, module `TimeFormat`. This is the minutes/seconds
  arithmetic of `time_str`.

The working precision is `(digits + 9) / 9` limbs of nine digits, which is
floor(d / 9) + 1. That is one limb more than ceil(d / 9) when 9 divides d,
including d = 0 (`Limits.Precision`).

## Model

| member | source | states |
|---|---|---|
| `BinarySplitting.Sign` | PI.h:71-72 | the leaf sign (-1)^b is ±1 and is -1 exactly for odd b |
| `BinarySplitting.LeafR` | PI.h:78-81 | a leaf's R = (2b-1)(6b-5)(6b-1) is at least 1 for every leaf index b ≥ 1 |
| `BinarySplitting.LeafQ` | PI.h:74-76 | a leaf's Q = 10939058860032000·b³ is at least 10939058860032000 for b ≥ 1 |
| `BinarySplitting.LeafPSign` | PI.h:65-72 | a leaf's P is (13591409 + 545140134 b)·R(b)·(-1)^b, is never zero, and is negative exactly when b is odd |
| `BinarySplitting.Leaf` | PI.h:64-81 | the triple of a one-index range: Q and R are positive, P is nonzero and negative exactly for odd b; `ClosedForm.LeafClosed` ties it to the closed form and `Limits.LeafExactBelowLimit` to the uint32_t computation |
| `BinarySplitting.Combine` | PI.h:102-104 | joining two adjacent triples keeps Q and R positive, and (0, 1, 1) is neutral on both sides; `ClosedForm.CombineClosed` and `ClosedForm.SplitIndependent` fix what it computes |
| `BinarySplitting.Mid` | PI.h:86 | for b - a ≥ 2 the split point satisfies a < m < b, so both halves are non-empty and strictly shorter; the halves differ in length by at most one |
| `BinarySplitting.BSR` | PI.h:61-104 | the recursion over [a, b) with a < b terminates, and its Q and R are positive |
| `BinarySplitting.CombineCount` | PI.h:106 | the recursion over [a, b) performs exactly b - a - 1 combines, so [0, terms) performs terms - 1 = steps |
| `BinarySplitting.HalfTowardZero` | PI.h:94 | C's `tds / 2` truncates toward zero: the remainder is 0 or 1 for tds ≥ 0 and 0 or -1 below |
| `BinarySplitting.SplitBudget` | PI.h:94-95 | the shares tds0 = tds/2 and tds1 = tds - tds0 sum to tds, are both ≥ 1 when tds ≥ 2, and differ by at most one |
| `ClosedForm.ProdQSplit` | PI.h:103 | the product of leaf Qs over (a, b] is the product over (a, m] times the product over (m, b] |
| `ClosedForm.ProdRSplit` | PI.h:104 | the same split holds for the product of leaf Rs |
| `ClosedForm.LowPart` | PI.h:102 | the P summands with k ≤ m of [a, b) are those of [a, m) times Q(m, b) |
| `ClosedForm.HighPart` | PI.h:102 | the P summands with k > m of [a, b) are those of [m, b) times R(a, m) |
| `ClosedForm.CombineClosed` | PI.h:102-104 | combining the closed forms of [a, m) and [m, b) gives the closed form of [a, b) |
| `ClosedForm.LeafClosed` | PI.h:64-81 | the closed form of the one-index range [b-1, b) is the leaf triple for b |
| `ClosedForm.BSRIsClosed` | PI.h:61-104 | the recursion gives Q = Π LeafQ(k), R = Π LeafR(k) and P = Σ LeafP(k)·Π_{j<k} LeafR(j)·Π_{j>k} LeafQ(j), all over k = a+1..b |
| `ClosedForm.SplitIndependent` | PI.h:86-104 | combining the results of any two adjacent sub-ranges [a, m), [m, b) equals the result for [a, b), whatever the split point |
| `Series.StepIdentity` | PI.h:74-81 | the six factors (6k-5)..(6k) times LeafQ(k) equal (3k-2)(3k-1)(3k)·k³·640320³ times LeafR(k), so 10939058860032000 = 640320³/24 |
| `Series.FactorialRatio` | PI.h:74-81 | (6k)! · Π_{j≤k} LeafQ(j) = (3k)!·(k!)³·640320^(3k) · Π_{j≤k} LeafR(j) |
| `Series.LastTerm` | PI.h:102 | the summand that leaf n adds to P/Q over [0, n) is the n-th Chudnovsky term |
| `Series.ClosedIsSeries` | PI.h:61-104 | P/Q over [0, n) is the sum of the Chudnovsky terms for k = 1..n |
| `Series.BSRQuotient` | PI.h:61-104 | P/Q of the recursion over [0, n) is the Chudnovsky partial sum up to k = n minus its k = 0 term 13591409 |
| `Series.FinalFractionIsSeries` | PI.h:156-158 | for the numerator Q·13591409 + P and denominator Q·4270934400 that Pi forms from the triple of [0, n), the denominator is positive and their quotient is the partial sum for k = 0..n divided by 4270934400 |
| `Limits.Wrap32` | PI.h:68-69 | uint32_t arithmetic: the result is below 2^32, is congruent to the input, and leaves values already in range unchanged |
| `Limits.Precision` | PI.h:124 | p = (digits + 9) / 9 in size_t: without wrap-around p ≥ 1 and 9(p-1) ≤ digits < 9p; when digits + 9 wraps, p = 0 |
| `Limits.Terms` | PI.h:125 | terms ≥ 1 and terms - 1 ≤ p·0.63462302413… < terms |
| `Limits.ExceedsLimitAsWritten` | PI.h:131-132 | the check `(uint32_t)terms != terms` fires exactly when terms ≥ 2^32 |
| `Limits.LeafAsWritten` | PI.h:64-81 | the leaf with uint32_t factors: its Q = 26726400·409297880·b³ never wraps and equals LeafQ(b), and its R is non-negative; `Limits.LeafExactBelowLimit` and `Limits.LeafWrapCounterexample` say when P and R are exact |
| `Limits.MidAsWritten` | PI.h:86 | `(a + b) / 2` with uint32_t a and b: below 2^31; the true midpoint while a + b < 2^32, and (a + b - 2^32) / 2 otherwise |
| `Limits.LeafExactBelowLimit` | PI.h:64-81 | for 1 ≤ b ≤ 715827882 the leaf computed with uint32_t factors equals the exact Chudnovsky leaf |
| `Limits.ExceedsLimit` | PI.h:131-132 | corrected check: a term count passes exactly when 6·terms - 1 < 2^32 |
| `Limits.BelowLimitNoWrap` | PI.h:64-91 | below the corrected limit, every leaf of [0, terms) is exact and every midpoint is the true midpoint |
| `Limits.LeafWrapCounterexample` | PI.h:68-70 | terms = 715827883 passes the check as written, but its last leaf computes 6b-1 as 1 and gets a wrong R and P |
| `Limits.MidpointWrapCounterexample` | PI.h:86 | terms = 2^32 - 1 passes the check as written, but the right half of the first split gets a wrapped midpoint below its own lower end; [1, 2^32 - 1) gets midpoint 0, so its right child is the whole root range again, and [1073741824, 1073741823) splits at its own upper end |
| `PiProgram.Evaluator.constructor` | PI.h:58-59 | the counter and the step count start at zero |
| `PiProgram.Evaluator.PiBSR` | PI.h:61-106 | for any thread budget, split between the halves by `BinarySplitting.SplitBudget`, the out-parameters are BSR(a, b); `iterations` grows by CombineCount(a, b) = b - a - 1; `steps` is unchanged |
| `PiProgram.Evaluator.Pi` | PI.h:121-158 | `steps` = terms - 1 is set before the check; Limit Exceeded is raised before any evaluation, exactly when the (corrected) check fires, and leaves the counter untouched; otherwise the counter grows by `steps`, the numerator is Q·13591409 + P and the denominator Q·4270934400 of BSR(0, terms), and their quotient is the partial Chudnovsky sum over 4270934400 |
| `TimeFormat.MinutesSeconds` | PI.h:47-52 | minutes = n / 60 and seconds = n - 60·minutes satisfy seconds < 60 and 60·minutes + seconds = n |
| `TimeFormat.MinutesSecondsUnique` | PI.h:47-52 | that split is the only one whose seconds are below 60 |

## Left out

- Precision truncation: `mul(x, p)` and `add(x, p)` at PI.h:102-104 and PI.h:157 drop low-order limbs. The model uses exact products and sums, and the parameter `p` is passed through unused. All the equalities above hold for exact evaluation only.
- BigFloat, FFT and NTT arithmetic are not part of this model: BigFloat.h, FFT.h and NTT.h. That covers `div` (PI.h:166), `invsqrt(10005, p)` (PI.h:171), the final multiply (PI.h:176), `to_string` (PI.h:183) and `fft_ensure_table` (PI.h:126). `Pi` therefore ends with the numerator and the denominator. No claim is made about Newton convergence or about the digits produced.
- Concurrency: the `std::thread` spawn and join (PI.h:96-99) and the atomicity of `iterations` are not modelled. The two children are evaluated one after the other with their budget shares. Each writes only its own triple, so only the counter is shared, and its final value does not depend on the interleaving.
- `threads` is a size_t passed to the `int` parameter `tds`. The model takes `tds` as an `int` and does not model that conversion.
- Limits.Terms: computes p · 0.6346… exactly over the reals. The source multiplies in double, which can round differently.
- PiProgram.Evaluator.PiBSR: requires b ≤ 715827882. Beyond that index the source's uint32_t leaf factors wrap, and beyond a + b ≥ 2^32 its midpoint wraps and the recursion does not terminate. Those cases are shown by the two counterexample lemmas rather than executed.
- PiProgram.Evaluator.Pi: uses the corrected limit check `Limits.ExceedsLimit` in place of the `(uint32_t)terms != terms` of PI.h:131. The check as written is modelled by `Limits.ExceedsLimitAsWritten` (see Findings).
- Output and timing are not modelled: `wall_clock` (PI.h:31-35), `dump_to_file` (PI.h:36-45), the progress line printed after each combine (PI.h:107-118), all console output, `setlocale` and `print_num_commas`.
- `time_str` is modelled as arithmetic on a whole number of seconds. The `floor` of a double (PI.h:48) and the text it builds (PI.h:51) are not modelled.
- The `size_t` wrap of `steps = terms - 1` cannot happen, since terms ≥ 1. The 64-bit wrap of `iterations` is not modelled.

## Findings

| source | as written | input that shows it | evidently intended | confidence | as-written member | corrected member |
|---|---|---|---|---|---|---|
| PI.h:131 | the limit check admits every term count below 2^32, but the leaf factor `6 * b - 1` (PI.h:70, PI.h:81) is a uint32_t | terms = 715827883 (about 1.0·10^10 digits): the leaf b = 715827883 computes 6b-1 as 1, so its R and P are wrong | reject every term count with 6·terms - 1 ≥ 2^32, so no leaf factor overflows | low, not executed; the transform-table capacity in FFT.h, which is not part of this model, may stop such a run first | `Limits.LeafWrapCounterexample` | `Limits.ExceedsLimit` |
| PI.h:131 | the limit check admits term counts for which `a + b` (PI.h:86) overflows uint32_t | terms = 4294967295: the right half [2147483647, 4294967295) gets midpoint 1073741823, below its lower end; further right-most splits reach [1, 4294967295), whose midpoint 0 makes its right child the root range again, so the recursion does not terminate | the same tighter limit, under which every midpoint sum fits in 32 bits | low, not executed; same caveat about FFT.h | `Limits.MidpointWrapCounterexample` | `Limits.BelowLimitNoWrap` |
