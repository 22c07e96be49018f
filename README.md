# ArkhamCalc dice-probability engine in Dafny

ArkhamCalc tells a player the chance of rolling at least a given number of
successes with a number of six-sided dice. A die shows a success on 2 of its
6 faces normally, on 3 when the investigator is blessed and on 1 when cursed.
The status is turned into a "success denominator" (3, 2 or 6) and the per-die
hit chance is one over it. `performCalculation` exits early with 0 when no
dice are rolled or more successes are needed than dice. Otherwise it picks the
cheaper of two summations of the binomial distribution:

- `calculateBySuccess` adds the mass of j = K .. n-1 successes and then the
  all-hits term p^n;
- `calculateByMiss` adds the mass of j = n-K+1 .. n-1 misses and the all-misses
  term (1-p)^n, and returns one minus that sum.

Both use `nChooseK`. It multiplies the partial factorial
(max(k, n-k) + 1) · … · n and divides it by min(k, n-k)!.

The model has four modules:

- `Combinatorics` (`combinatorics.dfy`) holds factorials and partial
  factorials. It defines the binomial coefficient by Pascal's rule, which
  serves as the independent reference. It also holds `NChooseK` with its two
  loops, proved to return that coefficient over unbounded integers.
- `BinomialSum` (`binomial_sum.dfy`) holds the probability mass of j successes
  in n dice as an exact real, and partial sums of a row of masses. It proves
  the binomial theorem (so, with q = 1 - p, the masses add up to 1). It proves
  the mirror identity: a sum over miss counts is a sum over hit counts read
  backwards. The tail `Tail(n, K, p)`, the chance of at least K successes, is
  the specification both strategies are proved against.
- `Calculator` (`calculator.dfy`) holds the status mapping, both summation
  methods with their loop invariants, the dispatch, and the fact that the two
  strategies agree. It also holds known values and the monotonicity and bounds
  of the reported chance.
- `JavaInt` (`java_int.dfy`) holds `nChooseK` exactly as written on Java's
  32-bit `int`. Its products wrap around modulo 2^32 and its division
  truncates toward zero. The module proves when that result is still exact and
  exhibits an input where it is not (see Findings).

Probabilities are Dafny `real`s, so every identity holds exactly. The status
reaches the summation methods as the integer denominator, as it does in Java,
with the precondition `status >= 1` that keeps 1 / status a probability.

## Model

| member | source | states |
|---|---|---|
| `Combinatorics.NChooseK` | ArkhamCalc/src/arkhamcalc/ArkhamCalculator.java:180-210 | returns C(n, k) for every 0 ≤ k ≤ n and 1 when k = 0 or k = n; its loop invariants say the while loop leaves the partial factorial (max(k, n-k) + 1) · … · n and the for loop leaves min(k, n-k)! |
| `Combinatorics.BinomFact` | ArkhamCalc/src/arkhamcalc/ArkhamCalculator.java:169-175 | the Pascal-rule coefficient satisfies C(n, k) · k! · (n-k)! = n!, the closed form in the doc comment |
| `Combinatorics.FactSplit` | ArkhamCalc/src/arkhamcalc/ArkhamCalculator.java:198-203 | n! = m! · (m+1) · … · n, so the numerator loop computes n! / max(k, n-k)! |
| `Combinatorics.ChooseQuotient` | ArkhamCalc/src/arkhamcalc/ArkhamCalculator.java:198-209 | (max(k, n-k) + 1) · … · n = C(n, k) · min(k, n-k)!, so the final division is exact |
| `Combinatorics.Bounds` | ArkhamCalc/src/arkhamcalc/ArkhamCalculator.java:190-196 | the branch starts the numerator at max(k, n-k) + 1 and stops the denominator at min(k, n-k), on both arms |
| `Combinatorics.BoundsSymmetric` | ArkhamCalc/src/arkhamcalc/ArkhamCalculator.java:190-196 | both arms give the same (start, stop) pair for k and for n - k |
| `Combinatorics.BinomSymmetric` | ArkhamCalc/src/arkhamcalc/ArkhamCalculator.java:171-175 | C(n, k) = C(n, n-k), so nChooseK(n, k) = nChooseK(n, n-k) |
| `BinomialSum.ChooseIsBinom` | ArkhamCalc/src/arkhamcalc/ArkhamCalculator.java:107-109 | the integer coefficient used as a multiplier of the powers equals the real-valued coefficient of the mass terms |
| `BinomialSum.PowBounds` | ArkhamCalc/src/arkhamcalc/ArkhamCalculator.java:107-112 | a chance in [0, 1] raised to any power stays in [0, 1] |
| `BinomialSum.TermPascal` | ArkhamCalc/src/arkhamcalc/ArkhamCalculator.java:90-93 | the mass C(n, j) p^j q^(n-j) obeys Pascal's rule: p times mass (n-1, j-1) plus q times mass (n-1, j) |
| `BinomialSum.BinomialTheorem` | ArkhamCalc/src/arkhamcalc/ArkhamCalculator.java:90-93 | the masses of row n add up to (p + q)^n |
| `BinomialSum.TotalMass` | ArkhamCalc/src/arkhamcalc/ArkhamCalculator.java:102-103 | with miss chance 1 - hit, the masses of 0 .. n successes add up to 1 |
| `BinomialSum.TermMirror` | ArkhamCalc/src/arkhamcalc/ArkhamCalculator.java:124-127 | the chance of j misses (miss chance q) equals the chance of n - j hits (hit chance p) |
| `BinomialSum.RowMirror` | ArkhamCalc/src/arkhamcalc/ArkhamCalculator.java:124-127 | the row of miss counts is the row of hit counts reversed |
| `BinomialSum.SumMirror` | ArkhamCalc/src/arkhamcalc/ArkhamCalculator.java:140-146 | summing miss counts lo .. hi-1 equals summing hit counts n+1-hi .. n-lo |
| `BinomialSum.TailComplement` | ArkhamCalc/src/arkhamcalc/ArkhamCalculator.java:148 | the chance of at least K successes is one minus the chance of at most K-1 |
| `BinomialSum.TailBounds` | ArkhamCalc/src/arkhamcalc/ArkhamCalculator.java:97 | the chance of at least K successes lies in [0, 1] for a hit chance in [0, 1] |
| `BinomialSum.TailStep` | ArkhamCalc/src/arkhamcalc/ArkhamCalculator.java:86-93 | needing K+1 instead of K successes drops exactly the mass of K successes |
| `BinomialSum.TailMonotone` | ArkhamCalc/src/arkhamcalc/ArkhamCalculator.java:86-93 | needing one more success never raises the chance |
| `Calculator.SuccessDenominator` | ArkhamCalc/src/arkhamcalc/ArkhamCalculator.java:156-164 | Normal → 3, Cursed → 6, Blessed → 2, always at least 1, and the denominator times the number of success faces is six |
| `Calculator.StatusHitChance` | ArkhamCalc/src/arkhamcalc/ArkhamCalculator.java:156-164 | Normal → 3, Cursed → 6, Blessed → 2 give hit chances 2/6, 1/6 and 3/6, the success faces over six, ordered Cursed < Normal < Blessed |
| `Calculator.HitChance` | ArkhamCalc/src/arkhamcalc/ArkhamCalculator.java:102 | 1 / status is a chance in (0, 1] for every status ≥ 1 |
| `Calculator.CalculateBySuccess` | ArkhamCalc/src/arkhamcalc/ArkhamCalculator.java:99-115 | returns the sum of the masses for j = K .. n-1 plus p^n; for K ≤ n this is the chance of at least K successes, in [0, 1] |
| `Calculator.CalculateByMiss` | ArkhamCalc/src/arkhamcalc/ArkhamCalculator.java:133-149 | returns 1 minus (the masses of j = n-K+1 .. n-1 misses plus (1-p)^n); for K ≥ 1 this is the chance of at least K successes, for K = 0 it is 1 - (1-p)^n, always in [0, 1] |
| `Calculator.SuccessBranchIsTail` | ArkhamCalc/src/arkhamcalc/ArkhamCalculator.java:83-97 | the sum calculateBySuccess forms equals the chance of at least K successes whenever K ≤ n |
| `Calculator.MissBranchIsTail` | ArkhamCalc/src/arkhamcalc/ArkhamCalculator.java:117-131 | one minus the mass of too many misses equals the chance of at least K successes for 1 ≤ K ≤ n+1 |
| `Calculator.MissBranchZero` | ArkhamCalc/src/arkhamcalc/ArkhamCalculator.java:135-148 | with K = 0 the loop is empty and the result is 1 - (1-p)^n, the chance of at least one success |
| `Calculator.BranchesAgree` | ArkhamCalc/src/arkhamcalc/ArkhamCalculator.java:99-149 | for 1 ≤ K ≤ n the two strategies compute exactly the same value |
| `Calculator.ChooseBranch` | ArkhamCalc/src/arkhamcalc/ArkhamCalculator.java:72-78 | no chance exactly when dice = 0 or K > dice; by success exactly when dice/2 < K ≤ dice; by miss exactly when dice ≥ 1 and K ≤ dice/2; the chosen strategy never sums more terms than the other |
| `Calculator.DispatchChoosesUpperHalf` | ArkhamCalc/src/arkhamcalc/ArkhamCalculator.java:72-78 | every coefficient C(n, j) a dispatched strategy asks for has n/2 < j < n, so nChooseK takes its first arm with start j + 1 and stop n - j |
| `Calculator.PerformCalculation` | ArkhamCalc/src/arkhamcalc/ArkhamCalculator.java:72-78 | returns 0 when dice = 0 or more successes are needed than dice; otherwise the chance of at least max(K, 1) successes; always in [0, 1] |
| `Calculator.ChanceBounds` | ArkhamCalc/src/arkhamcalc/ArkhamCalculator.java:72-78 | the reported chance is a probability for every input |
| `Calculator.ChanceMonotone` | ArkhamCalc/src/arkhamcalc/ArkhamCalculator.java:72-78 | needing one more success never raises the reported chance |
| `Calculator.ZeroNeededIsAtLeastOne` | ArkhamCalc/src/arkhamcalc/ArkhamCalculator.java:135 | with no successes needed and at least one die the report is 1 - (1-p)^n, not 1 |
| `Calculator.KnownImpossible` | ArkhamCalc/src/arkhamcalc/ArkhamCalculator.java:72-73 | no dice, or 6 successes from 5 dice, reports 0 |
| `Calculator.KnownOneDie` | ArkhamCalc/src/arkhamcalc/ArkhamCalculator.java:99-115 | one normal die, one success: 1/3 |
| `Calculator.KnownTwoDice` | ArkhamCalc/src/arkhamcalc/ArkhamCalculator.java:133-149 | two normal dice, one success: 5/9 |
| `Calculator.KnownThreeDice` | ArkhamCalc/src/arkhamcalc/ArkhamCalculator.java:99-115 | three blessed dice, two successes: 1/2 |
| `Calculator.DispatchedCoefficientsExact` | ArkhamCalc/src/arkhamcalc/ArkhamCalculator.java:198-207 | up to 18 dice every coefficient the dispatch asks for is exact even in 32-bit arithmetic |
| `Calculator.OverflowReachable` | ArkhamCalc/src/arkhamcalc/ArkhamCalculator.java:198-209 | 20 dice needing 11 successes dispatch to calculateBySuccess, whose first 32-bit coefficient comes out as 2259 instead of C(20, 11) = 167960 |
| `JavaInt.Wrap` | ArkhamCalc/src/arkhamcalc/ArkhamCalculator.java:201 | the 32-bit result of a product lies in the int range, is congruent to the exact value modulo 2^32, and equals it when it fits |
| `JavaInt.WrapMul` | ArkhamCalc/src/arkhamcalc/ArkhamCalculator.java:200-207 | wrapping after every multiplication equals wrapping the exact product once |
| `JavaInt.JavaDiv` | ArkhamCalc/src/arkhamcalc/ArkhamCalculator.java:209 | Java's truncating `/` agrees with exact division for a non-negative int dividend and positive divisor |
| `JavaInt.NChooseKInt32` | ArkhamCalc/src/arkhamcalc/ArkhamCalculator.java:180-210 | nChooseK with every product on 32-bit int returns the wrapped partial factorial divided by the wrapped factorial, or fails when that denominator is zero |
| `JavaInt.JavaChooseExact` | ArkhamCalc/src/arkhamcalc/ArkhamCalculator.java:198-209 | while the partial factorial fits in an int, the 32-bit result is C(n, k) |
| `JavaInt.ExactUpTo18Dice` | ArkhamCalc/src/arkhamcalc/ArkhamCalculator.java:198-209 | for n ≤ 18 and k > n/2 the 32-bit result is C(n, k) |
| `JavaInt.OverflowAtTwentyDice` | ArkhamCalc/src/arkhamcalc/ArkhamCalculator.java:198-209 | C(20, 11) = 167960 but the 32-bit computation gives 2259 |

## Left out

- The Swing window, its labels, spinners, buttons and listener wiring are not modelled. They are presentation only.
- Reading the spinners and the radio buttons is not modelled. `getStatus` is modelled as a map from a `Status` value, and `performCalculation` takes the dice count, the success count and the status as parameters.
- Writing the percentage into the result label is not modelled. `PerformCalculation` returns the probability instead.
- `double` rounding and `Math.pow` are not modelled. Probabilities are exact reals and powers are exact, so the two strategies agree exactly only in the model; in Java they may differ in the last bits. The conversion of the `int` coefficient to `double` before it is multiplied is left out for the same reason.
- Combinatorics.NChooseK: uses unbounded integers, so it always returns the true coefficient. Java's 32-bit `nChooseK` computes every coefficient the dispatch asks for exactly up to 18 dice (`Calculator.DispatchedCoefficientsExact`) and overflows on some of them only with 19 or 20 dice. The as-written 32-bit behaviour is modelled in `JavaInt` and recorded under Findings.
- Calculator.CalculateBySuccess: calls the unbounded `NChooseK`, so it does not reproduce the wrong results for 19 and 20 dice; it takes the status as an integer with `status >= 1`, which `getStatus` always meets (3, 6 or 2).
- Calculator.CalculateByMiss: calls the unbounded `NChooseK` as well; it requires `successNeeded <= dice + 1`, which every dispatched call meets (with a larger K, Java would call `nChooseK` with a negative k), and `status >= 1` as above.
- JavaInt.NChooseKInt32: requires `n` below the largest `int`, so that the loop counter `startUp` cannot itself wrap around.

## Findings

| source | as written | input that shows it | evidently intended | confidence | as-written member | corrected member |
|---|---|---|---|---|---|---|
| ArkhamCalc/src/arkhamcalc/ArkhamCalculator.java:198-209 | `nChooseK` keeps the partial factorial in a 32-bit `int`, which overflows once the product exceeds 2^31 - 1 | 20 dice, 11 successes needed: 12 · … · 20 = 60949324800 wraps to 819782656, and 819782656 / 9! = 2259 instead of C(20, 11) = 167960; the dice spinner allows 20 (line 258) | the exact binomial coefficient, for example by accumulating in `long` or by dividing step by step | not executed; derived by hand and proved in the model | `JavaInt.NChooseKInt32` with `JavaInt.OverflowAtTwentyDice` and `Calculator.OverflowReachable` | `Combinatorics.NChooseK` |
