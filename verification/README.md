# Verified model of the discrete probability header

This project models the combinatorial core of the probability header
`projects/code/plottingstuff/discrete_prob.h`:

- `nChooseK(n, k)`: argument assertions, the `k == 0` and `k == 1`
  shortcuts, the symmetry rewrite `k := n - k` when `k > n / 2`, and the
  multiplicative loop `result = result * (n - k + i) / i`.
- The assertions of `binomial_pmf`, `neg_binomial_pmf` and
  `hypergeometric_pmf`, plus the binomial-coefficient factors they compute
  with `nChooseK`.
- The accumulator loop of `poisson_pmf`, which builds `mean^successes / successes!`.

The header stores every value in a `double`. The model uses exact
mathematical `int` and `real` instead. A C++ `assert` that fails aborts the
program; the model returns `Aborted(failure)` instead, where `failure`
names the assertion that fired (module `Aborts`).

The reference definition is `Combinatorics.Choose`, defined by Pascal's
rule: `C(n, 0) = 1`, `C(0, k + 1) = 0`, `C(n + 1, k + 1) = C(n, k) + C(n, k + 1)`.
The main results are:

- The loop keeps `result == C(n - k + i, i)`.
- Over `int`, every division in the loop is exact.
- `nChooseK` returns `C(n, k)`, which is at least 1.

`C(n, k) * k! * (n - k)! == n!` and Vandermonde's identity are proved as
independent checks on `Choose`. Vandermonde's identity also shows that the
hypergeometric masses lie in `[0, 1]` and sum to 1.

Files: `aborts.dfy` (failure values), `combinatorics.dfy` (`Choose` and its
identities), `discrete_prob.dfy` (the header's functions).

All source paths below are under `projects/code/plottingstuff/`.

## Model

| member | source | states |
|---|---|---|
| `Combinatorics.ChooseAboveN` | projects/code/plottingstuff/discrete_prob.h:12 | When k > n there are no k-subsets: C(n, k) == 0. This is the case the line-12 assertion rejects. |
| `Combinatorics.ChoosePositive` | projects/code/plottingstuff/discrete_prob.h:8-28 | Every accepted input has C(n, k) >= 1, so the returned value is at least 1 |
| `Combinatorics.ChooseNonZeroIff` | projects/code/plottingstuff/discrete_prob.h:10-12 | C(n, k) is non-zero exactly when 0 <= k <= n. That is the range lines 10 and 12 accept; line 11 also rejects n == 0, so C(0, 0) == 1 is refused (see Findings) |
| `Combinatorics.ChooseAll` | projects/code/plottingstuff/discrete_prob.h:19-27 | C(n, n) == 1. For n >= 2, nChooseK(n, n) gets this value by rewriting k to 0 and running the loop zero times; nChooseK(1, 1) returns it through the k == 1 shortcut. |
| `Combinatorics.ChooseOne` | projects/code/plottingstuff/discrete_prob.h:16-17 | C(n, 1) == n, so the k == 1 shortcut agrees with the general formula |
| `Combinatorics.ChooseSymmetric` | projects/code/plottingstuff/discrete_prob.h:19-20 | C(n, k) == C(n, n - k) for 0 <= k <= n, so the symmetry rewrite does not change the result |
| `Combinatorics.ChooseAbsorption` | projects/code/plottingstuff/discrete_prob.h:24-25 | j * C(m, j) == m * C(m - 1, j - 1). This identity makes each loop step exact. |
| `Combinatorics.MultiplicativeStep` | projects/code/plottingstuff/discrete_prob.h:25 | C(m - 1, i - 1) * m is divisible by i, and the quotient is C(m, i), so the division on line 25 never truncates |
| `Combinatorics.ChooseFactorial` | projects/code/plottingstuff/discrete_prob.h:22-27 | C(n, k) * k! * (n - k)! == n!. The recurrence therefore computes the factorial formula without forming any factorial. |
| `Combinatorics.Vandermonde` | projects/code/plottingstuff/discrete_prob.h:77-79 | The sum over j <= s of C(m, j) * C(r, s - j) equals C(m + r, s). This relates the numerator products to the denominator. |
| `Combinatorics.VandermondeSplit` | projects/code/plottingstuff/discrete_prob.h:77-79 | Vandermonde's identity for a population of n split into m successes and n - m failures |
| `DiscreteProb.ReducedK` | projects/code/plottingstuff/discrete_prob.h:19-20 | After the rewrite, 0 <= k' <= n / 2 and k' <= k, and C(n, k') == C(n, k) |
| `DiscreteProb.NChooseK` | projects/code/plottingstuff/discrete_prob.h:14-27 | The shortcuts, rewrite and loop return C(n, k) >= 1 for every 0 <= k <= n. The loop invariant is result == C(n - k + i, i) after step i. |
| `DiscreteProb.CheckedNChooseK` | projects/code/plottingstuff/discrete_prob.h:8-28 | k < 0, then n < 1, then k > n abort in that order, with the matching failure. Any other input returns C(n, k) >= 1. The call returns a value exactly when k >= 0, n >= 1 and k <= n. |
| `DiscreteProb.BinomialCoefficient` | projects/code/plottingstuff/discrete_prob.h:30-35 | Checks lines 32 and 33 in order, then calls nChooseK(trials, successes). A negative successes count then aborts with line 10's failure, and trials < 1 with line 11's. It returns a value exactly when both assertions and nChooseK's three assertions hold, and that value is C(trials, successes). |
| `DiscreteProb.BinomialAssertsGap` | projects/code/plottingstuff/discrete_prob.h:32-35 | When binomial_pmf's assertions hold, the nChooseK call is accepted exactly when successes >= 0 and trials >= 1 |
| `DiscreteProb.BinomialZeroTrialsAborts` | projects/code/plottingstuff/discrete_prob.h:32-35 | binomial_pmf(0, 0.5, 0) passes lines 32-33. Its call nChooseK(0, 0) is rejected by line 11, although C(0, 0) == 1. |
| `DiscreteProb.BinomialNegativeSuccessesAborts` | projects/code/plottingstuff/discrete_prob.h:32-35 | binomial_pmf(2, 0.5, -1) passes lines 32-33 and then aborts in nChooseK |
| `DiscreteProb.BinomialCoefficientFixed` | projects/code/plottingstuff/discrete_prob.h:30-35 | With both corrections (`successes >= 0` also asserted, and nChooseK accepting n >= 0), the call returns exactly when 0 <= successes <= trials and 0 <= prob <= 1. It then returns C(trials, successes) >= 1. |
| `DiscreteProb.PoissonStep` | projects/code/plottingstuff/discrete_prob.h:47-48 | One loop pass maps x^(i-1)/(i-1)! to x^i/i! |
| `DiscreteProb.PoissonAccumulator` | projects/code/plottingstuff/discrete_prob.h:40-48 | mean <= 0 aborts first, then successes < 0. Otherwise the loop leaves mean^successes / successes!, which is positive. |
| `DiscreteProb.NegBinomialCoefficient` | projects/code/plottingstuff/discrete_prob.h:61-67 | Checks lines 63-65 in order, then calls nChooseK(trials - 1, rth_success - 1). When the assertions hold and trials == 1, it aborts with line 11's failure. It returns a value exactly when the assertions hold and trials >= 2, and that value is C(trials - 1, rth_success - 1). |
| `DiscreteProb.NegBinomialOneTrialAborts` | projects/code/plottingstuff/discrete_prob.h:63-67 | neg_binomial_pmf(1, 0.5, 1) passes lines 63-65. Its call nChooseK(0, 0) is rejected by line 11, although C(0, 0) == 1. |
| `DiscreteProb.NegBinomialCoefficientFixed` | projects/code/plottingstuff/discrete_prob.h:61-67 | With nChooseK's domain corrected to n >= 0, lines 63-65 establish the call's precondition. The call returns exactly when they hold, and returns C(trials - 1, rth_success - 1) >= 1. |
| `DiscreteProb.HypergeometricPmf` | projects/code/plottingstuff/discrete_prob.h:72-80 | The mass C(K, k) * C(N - K, n - k) / C(N, n) lies in [0, 1]. It is positive exactly on the support: 0 <= k <= K and 0 <= n - k <= N - K. |
| `DiscreteProb.HypergeometricTermBound` | projects/code/plottingstuff/discrete_prob.h:77-79 | The denominator is at least 1. Each numerator product is at most the denominator, and the product is non-zero exactly on the support. |
| `DiscreteProb.HypergeometricMassIsConvolution` | projects/code/plottingstuff/discrete_prob.h:77-79 | The mass of the first t success counts is the partial Vandermonde sum divided by C(N, n) |
| `DiscreteProb.HypergeometricMassSumsToOne` | projects/code/plottingstuff/discrete_prob.h:72-80 | The masses for 0 .. n successes in the sample sum to exactly 1 |
| `DiscreteProb.HypergeometricRatio` | projects/code/plottingstuff/discrete_prob.h:72-80 | Line 74, then line 75, abort with their own failures. The function returns exactly when the first two nChooseK calls are accepted; once they are, the third is always accepted. The returned value is the hypergeometric mass. |
| `DiscreteProb.HypergeometricExcessFailuresAborts` | projects/code/plottingstuff/discrete_prob.h:74-79 | hypergeometric_pmf(8, 10, 5, 1) passes lines 74-75 and then calls nChooseK(5, 7), which aborts. Its true mass is 0. |

## Left out

- `calculus.h` is not part of this model. Trapezoidal quadrature over `double` through `std::function` callables is floating-point numerics with no exact semantics to prove.
- `continuous_prob.h` is not part of this model. It holds closed-form densities built from `std::exp`, `std::sqrt` and `std::pow`.
- `test.cpp` is not part of this model. It is a console demonstration entry point.
- `geometric_pmf` (discrete_prob.h:53-59) is not modelled. It is a single `std::pow` expression behind two assertions and does not call `nChooseK`.
- The `std::pow` and `std::exp` factors of the mass functions are left out. Each mass function is modelled only up to its combinatorial factor, or up to the accumulator for `poisson_pmf`.
- Floating point is left out. `nChooseK` and the Poisson accumulator store their values in `double`. The model computes exact integers and reals. A `double` represents integers exactly only up to 2^53. The intermediate product `result * (n - k + i)` on line 25 equals i * C(n - k + i, i), so rounding can start once that product, at most k * C(n, k), exceeds 2^53, even while C(n, k) itself is below 2^53. The model does not round.
- Builds with `NDEBUG` are not modelled. There every `assert` vanishes and the code runs on. For example nChooseK(5, 7) then rewrites k to -2, skips the loop and returns 1, so hypergeometric_pmf(8, 10, 5, 1) returns 5/45 instead of aborting. The model treats every assertion as compiled in.
- 32-bit `int` is not modelled. Arguments and loop counters are unbounded integers.
- `DiscreteProb.PoissonAccumulator`: poisson_pmf(mean, INT_MAX) passes lines 42-43, but `++i` on line 47 then overflows, which is undefined behaviour. PoissonAccumulator returns a value for that input.
- The differences `pop_size - success_in_pop` and `sample_size - success_in_sample` on line 78, and `trials - successes` on line 37, can overflow only on inputs that an nChooseK call rejects. Examples are hypergeometric_pmf(0, INT_MAX, -1, -1) and binomial_pmf(INT_MAX, 0.5, -1); for the latter BinomialCoefficient returns Aborted(NegativeK). Whether the rejecting call runs first depends on the operand order.
- `DiscreteProb.HypergeometricRatio`: C++ leaves the evaluation order of the three `nChooseK` operands unspecified. The model evaluates them left to right, which only affects which abort is reported.

## Findings

| source | as written | input that shows it | evidently intended | confidence | as-written member | corrected member |
|---|---|---|---|---|---|---|
| projects/code/plottingstuff/discrete_prob.h:11 | `nChooseK` asserts `n >= 1`, so C(0, 0) is rejected | `neg_binomial_pmf(1, 0.5, 1)` satisfies lines 63-65 and calls `nChooseK(0, 0)`; so does `binomial_pmf(0, 0.5, 0)` after lines 32-33 | accept `n >= 0`; C(0, 0) == 1 and the shortcut on line 14 already returns it | high, not executed | `DiscreteProb.NegBinomialOneTrialAborts` | `DiscreteProb.NegBinomialCoefficientFixed` |
| projects/code/plottingstuff/discrete_prob.h:32 | `binomial_pmf` asserts only `trials >= successes` | `binomial_pmf(2, 0.5, -1)` passes and calls `nChooseK(2, -1)` | also assert `successes >= 0`, as `poisson_pmf` does at line 43; the corrected member also uses the line-11 fix (nChooseK accepting n >= 0) | medium, not executed | `DiscreteProb.BinomialNegativeSuccessesAborts` | `DiscreteProb.BinomialCoefficientFixed` |
| projects/code/plottingstuff/discrete_prob.h:74-75 | the assertions do not bound `sample_size - success_in_sample` by `pop_size - success_in_pop`, nor either below by 0 | `hypergeometric_pmf(8, 10, 5, 1)` passes and calls `nChooseK(5, 7)` | the hypergeometric mass, which is 0 outside the support and sums to 1 | medium, not executed | `DiscreteProb.HypergeometricExcessFailuresAborts` | `DiscreteProb.HypergeometricPmf` |
