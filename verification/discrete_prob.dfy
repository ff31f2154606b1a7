/** The discrete mass functions of the probability header: `nChooseK`, the
    assertions the mass functions use to guard their calls to it, and the
    Poisson accumulator. Values the header keeps in a `double` are exact
    integers or reals here. */
module DiscreteProb {
  import opened Aborts
  import opened Combinatorics

  // ---------------------------------------------------------------------------
  // nChooseK
  // ---------------------------------------------------------------------------

  /** The inputs the three assertions at the top of `nChooseK` let through. */
  predicate NChooseKAccepts(n: int, k: int)
  {
    k >= 0 && n >= 1 && n >= k
  }

  /** The inputs on which the binomial coefficient is defined. */
  predicate ChooseDomain(n: int, k: int)
  {
    0 <= k <= n
  }

  /** The symmetry rewrite: the reduced k needs at most n / 2 loop steps and
      names the same coefficient. */
  function ReducedK(n: int, k: int): (k': int)
    requires ChooseDomain(n, k)
    ensures 0 <= k' <= n / 2 && k' <= k
    ensures Choose(n, k') == Choose(n, k)
  {
    ChooseSymmetric(n, k);
    if k > n / 2 then n - k else k
  }

  /** The body of `nChooseK` after its assertions: the two shortcuts, the
      symmetry rewrite and the multiplicative recurrence. Every division in
      the loop is exact, so the accumulator stays the integer C(n - k + i, i). */
  method NChooseK(n: int, k: int) returns (r: int)
    requires ChooseDomain(n, k)
    ensures r == Choose(n, k)
    ensures r >= 1
  {
    ChoosePositive(n, k);
    if k == 0 {
      return 1;
    }
    if k == 1 {
      ChooseOne(n);
      return n;
    }
    var k' := ReducedK(n, k);
    r := 1;
    var i := 1;
    while i <= k'
      invariant 1 <= i <= k' + 1
      invariant r == Choose(n - k' + i - 1, i - 1)
    {
      MultiplicativeStep(n - k' + i, i);
      r := (r * (n - k' + i)) / i;
      i := i + 1;
    }
  }

  /** `nChooseK` as written: the assertions fire in source order, and an
      input they let through yields C(n, k). */
  method CheckedNChooseK(n: int, k: int) returns (r: Outcome<int>)
    ensures k < 0 ==> r == Aborted(NegativeK)
    ensures k >= 0 && n < 1 ==> r == Aborted(NonPositiveN)
    ensures k >= 0 && n >= 1 && k > n ==> r == Aborted(KExceedsN)
    ensures r.Value? <==> NChooseKAccepts(n, k)
    ensures r.Value? ==> 0 <= k <= n && r.value == Choose(n, k) && r.value >= 1
  {
    if k < 0 {
      return Aborted(NegativeK);
    }
    if n < 1 {
      return Aborted(NonPositiveN);
    }
    if k > n {
      return Aborted(KExceedsN);
    }
    var c := NChooseK(n, k);
    return Value(c);
  }

  // ---------------------------------------------------------------------------
  // binomial_pmf: the coefficient factor C(trials, successes)
  // ---------------------------------------------------------------------------

  predicate BinomialAsserts(trials: int, prob: real, successes: int)
  {
    trials >= successes && 0.0 <= prob <= 1.0
  }

  /** The coefficient `binomial_pmf` computes, as written. */
  method BinomialCoefficient(trials: int, prob: real, successes: int) returns (r: Outcome<int>)
    ensures trials < successes ==> r == Aborted(MoreSuccessesThanTrials)
    ensures trials >= successes && !(0.0 <= prob <= 1.0) ==> r == Aborted(ProbabilityOutsideClosedUnit)
    ensures BinomialAsserts(trials, prob, successes) && successes < 0 ==> r == Aborted(NegativeK)
    ensures BinomialAsserts(trials, prob, successes) && successes >= 0 && trials < 1 ==> r == Aborted(NonPositiveN)
    ensures r.Value? <==> BinomialAsserts(trials, prob, successes) && NChooseKAccepts(trials, successes)
    ensures r.Value? ==> 0 <= successes <= trials && r.value == Choose(trials, successes)
  {
    if !(trials >= successes) {
      return Aborted(MoreSuccessesThanTrials);
    }
    if !(0.0 <= prob <= 1.0) {
      return Aborted(ProbabilityOutsideClosedUnit);
    }
    r := CheckedNChooseK(trials, successes);
  }

  /** What the assertions of `binomial_pmf` leave to `nChooseK`: the call is
      accepted exactly when successes is non-negative and trials positive. */
  lemma BinomialAssertsGap(trials: int, prob: real, successes: int)
    requires BinomialAsserts(trials, prob, successes)
    ensures NChooseKAccepts(trials, successes) <==> successes >= 0 && trials >= 1
  {
  }

  /** binomial_pmf(2, 0.5, -1) passes both assertions and aborts in nChooseK. */
  lemma BinomialNegativeSuccessesAborts()
    ensures BinomialAsserts(2, 0.5, -1)
    ensures !NChooseKAccepts(2, -1)
  {
  }

  /** binomial_pmf(0, 0.5, 0) passes both assertions, then calls nChooseK(0, 0),
      which the `n >= 1` assertion rejects although C(0, 0) == 1. */
  lemma BinomialZeroTrialsAborts()
    ensures BinomialAsserts(0, 0.5, 0)
    ensures !NChooseKAccepts(0, 0)
    ensures ChooseDomain(0, 0) && Choose(0, 0) == 1
  {
  }

  /** The coefficient with both corrections applied: the missing lower-bound
      assertion `successes >= 0` is added, and the call goes to `NChooseK`,
      whose domain is the corrected 0 <= k <= n (so n == 0 is accepted).
      Every input the assertions let through is then in the coefficient's
      domain. */
  method BinomialCoefficientFixed(trials: int, prob: real, successes: int) returns (r: Outcome<int>)
    ensures successes < 0 ==> r == Aborted(NegativeSuccesses)
    ensures r.Value? <==> 0 <= successes <= trials && 0.0 <= prob <= 1.0
    ensures r.Value? ==> 0 <= successes <= trials && r.value == Choose(trials, successes) && r.value >= 1
  {
    if !(successes >= 0) {
      return Aborted(NegativeSuccesses);
    }
    if !(trials >= successes) {
      return Aborted(MoreSuccessesThanTrials);
    }
    if !(0.0 <= prob <= 1.0) {
      return Aborted(ProbabilityOutsideClosedUnit);
    }
    var c := NChooseK(trials, successes);
    return Value(c);
  }

  // ---------------------------------------------------------------------------
  // poisson_pmf: the accumulator mean^successes / successes!
  // ---------------------------------------------------------------------------

  function Power(x: real, e: nat): (p: real)
  {
    if e == 0 then 1.0 else x * Power(x, e - 1)
  }

  lemma {:induction false} PowerPositive(x: real, e: nat)
    requires x > 0.0
    ensures Power(x, e) > 0.0
  {
    if e > 0 {
      PowerPositive(x, e - 1);
    }
  }

  /** The Poisson series term x^e / e!. */
  function PoissonTerm(x: real, e: nat): (t: real)
  {
    Power(x, e) / Factorial(e) as real
  }

  /** One pass of the Poisson loop turns x^(i-1)/(i-1)! into x^i/i!. */
  lemma PoissonStep(x: real, i: nat)
    requires i >= 1
    ensures PoissonTerm(x, i - 1) * x / i as real == PoissonTerm(x, i)
  {
    var f := Factorial(i - 1);
    assert Factorial(i) == i * f;
    CastProduct(i, f);
    RealQuotientStep(Power(x, i - 1), f as real, x, i as real, Power(x, i), Factorial(i) as real);
  }

  lemma CastProduct(a: nat, b: nat)
    ensures (a * b) as real == a as real * b as real
  {
  }

  lemma RealQuotientStep(p: real, f: real, x: real, d: real, p': real, f': real)
    requires f > 0.0 && d > 0.0 && p' == x * p && f' == d * f
    ensures (p / f) * x / d == p' / f'
  {
  }

  /** `poisson_pmf` up to its e^(-mean) factor: the assertions, then the loop
      that builds mean^successes / successes! one factor at a time. */
  method PoissonAccumulator(mean: real, successes: int) returns (r: Outcome<real>)
    ensures mean <= 0.0 ==> r == Aborted(MeanNotPositive)
    ensures mean > 0.0 && successes < 0 ==> r == Aborted(NegativeSuccesses)
    ensures r.Value? <==> mean > 0.0 && successes >= 0
    ensures r.Value? ==> successes >= 0 && r.value == PoissonTerm(mean, successes)
    ensures r.Value? ==> r.value > 0.0
  {
    if !(mean > 0.0) {
      return Aborted(MeanNotPositive);
    }
    if !(successes >= 0) {
      return Aborted(NegativeSuccesses);
    }
    var acc := 1.0;
    var i := 1;
    while i <= successes
      invariant 1 <= i <= successes + 1
      invariant acc == PoissonTerm(mean, i - 1)
    {
      PoissonStep(mean, i);
      acc := (acc * mean) / i as real;
      i := i + 1;
    }
    PowerPositive(mean, successes);
    return Value(acc);
  }

  // ---------------------------------------------------------------------------
  // neg_binomial_pmf: the coefficient factor C(trials - 1, rth_success - 1)
  // ---------------------------------------------------------------------------

  predicate NegBinomialAsserts(rthSuccess: int, prob: real, trials: int)
  {
    rthSuccess >= 1 && trials >= rthSuccess && 0.0 < prob < 1.0
  }

  /** The coefficient `neg_binomial_pmf` computes, as written. It aborts when
      trials is 1, although the assertions admit that input. */
  method NegBinomialCoefficient(rthSuccess: int, prob: real, trials: int) returns (r: Outcome<int>)
    ensures rthSuccess < 1 ==> r == Aborted(NegativeSuccesses)
    ensures rthSuccess >= 1 && trials < rthSuccess ==> r == Aborted(NotEnoughTrials)
    ensures rthSuccess >= 1 && trials >= rthSuccess && !(0.0 < prob < 1.0) ==> r == Aborted(ProbabilityOutsideOpenUnit)
    ensures NegBinomialAsserts(rthSuccess, prob, trials) && trials < 2 ==> r == Aborted(NonPositiveN)
    ensures r.Value? <==> NegBinomialAsserts(rthSuccess, prob, trials) && trials >= 2
    ensures r.Value? ==> 1 <= rthSuccess <= trials && r.value == Choose(trials - 1, rthSuccess - 1)
  {
    if !(rthSuccess >= 1) {
      return Aborted(NegativeSuccesses);
    }
    if !(trials >= rthSuccess) {
      return Aborted(NotEnoughTrials);
    }
    if !(0.0 < prob < 1.0) {
      return Aborted(ProbabilityOutsideOpenUnit);
    }
    r := CheckedNChooseK(trials - 1, rthSuccess - 1);
  }

  /** neg_binomial_pmf(1, 0.5, 1) passes all three assertions, then calls
      nChooseK(0, 0), which the `n >= 1` assertion rejects although C(0, 0) == 1. */
  lemma NegBinomialOneTrialAborts()
    ensures NegBinomialAsserts(1, 0.5, 1)
    ensures !NChooseKAccepts(1 - 1, 1 - 1)
    ensures ChooseDomain(0, 0) && Choose(0, 0) == 1
  {
  }

  /** The coefficient against the corrected `nChooseK` domain (n >= 0): the
      assertions of `neg_binomial_pmf` then establish it for every call. */
  method NegBinomialCoefficientFixed(rthSuccess: int, prob: real, trials: int) returns (r: Outcome<int>)
    ensures r.Value? <==> NegBinomialAsserts(rthSuccess, prob, trials)
    ensures r.Value? ==> 1 <= rthSuccess <= trials && r.value == Choose(trials - 1, rthSuccess - 1) && r.value >= 1
  {
    if !(rthSuccess >= 1) {
      return Aborted(NegativeSuccesses);
    }
    if !(trials >= rthSuccess) {
      return Aborted(NotEnoughTrials);
    }
    if !(0.0 < prob < 1.0) {
      return Aborted(ProbabilityOutsideOpenUnit);
    }
    var c := NChooseK(trials - 1, rthSuccess - 1);
    return Value(c);
  }

  // ---------------------------------------------------------------------------
  // hypergeometric_pmf
  // ---------------------------------------------------------------------------

  predicate HypergeometricAsserts(sampleSize: int, popSize: int, successInPop: int, successInSample: int)
  {
    sampleSize <= popSize && successInSample <= successInPop
  }

  /** The hypergeometric mass: the chance that a sample of sampleSize drawn
      without replacement from popSize items, successInPop of them successes,
      holds exactly successInSample successes. It is 0 outside the support. */
  function HypergeometricPmf(sampleSize: nat, popSize: nat, successInPop: nat, successInSample: int): (p: real)
    requires sampleSize <= popSize && successInPop <= popSize
    ensures 0.0 <= p <= 1.0
    ensures p > 0.0 <==> HypergeometricSupport(sampleSize, popSize, successInPop, successInSample)
  {
    if 0 <= successInSample <= sampleSize then
      HypergeometricTermBound(sampleSize, popSize, successInPop, successInSample);
      RealFraction(HypergeometricTerm(sampleSize, popSize, successInPop, successInSample) as real,
                   Choose(popSize, sampleSize) as real);
      HypergeometricTerm(sampleSize, popSize, successInPop, successInSample) as real
        / Choose(popSize, sampleSize) as real
    else
      0.0
  }

  /** The counts of successes a sample can actually hold. */
  predicate HypergeometricSupport(sampleSize: int, popSize: int, successInPop: int, successInSample: int)
  {
    0 <= successInSample <= successInPop && 0 <= sampleSize - successInSample <= popSize - successInPop
  }

  /** The numerator C(successInPop, s) * C(popSize - successInPop, sampleSize - s). */
  function HypergeometricTerm(sampleSize: nat, popSize: nat, successInPop: nat, s: nat): (t: nat)
    requires s <= sampleSize && successInPop <= popSize
  {
    Choose(successInPop, s) * Choose(popSize - successInPop, sampleSize - s)
  }

  lemma HypergeometricTermBound(sampleSize: nat, popSize: nat, successInPop: nat, s: nat)
    requires s <= sampleSize <= popSize && successInPop <= popSize
    ensures Choose(popSize, sampleSize) >= 1
    ensures HypergeometricTerm(sampleSize, popSize, successInPop, s) <= Choose(popSize, sampleSize)
    ensures HypergeometricTerm(sampleSize, popSize, successInPop, s) > 0
        <==> HypergeometricSupport(sampleSize, popSize, successInPop, s)
  {
    ChoosePositive(popSize, sampleSize);
    ConvolutionTermBound(successInPop, popSize - successInPop, sampleSize, sampleSize + 1, s);
    Vandermonde(successInPop, popSize - successInPop, sampleSize);
    ChooseNonZeroIff(successInPop, s);
    ChooseNonZeroIff(popSize - successInPop, sampleSize - s);
  }

  lemma RealFraction(t: real, d: real)
    requires 0.0 <= t <= d && d >= 1.0
    ensures 0.0 <= t / d <= 1.0
    ensures t / d > 0.0 <==> t > 0.0
  {
  }

  /** The mass of the first t success counts 0 .. t - 1. */
  function HypergeometricMass(sampleSize: nat, popSize: nat, successInPop: nat, t: nat): (mass: real)
    requires sampleSize <= popSize && successInPop <= popSize && t <= sampleSize + 1
  {
    if t == 0 then 0.0
    else HypergeometricMass(sampleSize, popSize, successInPop, t - 1)
         + HypergeometricPmf(sampleSize, popSize, successInPop, t - 1)
  }

  lemma {:induction false} HypergeometricMassIsConvolution(sampleSize: nat, popSize: nat, successInPop: nat, t: nat)
    requires sampleSize <= popSize && successInPop <= popSize && t <= sampleSize + 1
    ensures Choose(popSize, sampleSize) >= 1
    ensures HypergeometricMass(sampleSize, popSize, successInPop, t)
         == Convolution(successInPop, popSize - successInPop, sampleSize, t) as real
            / Choose(popSize, sampleSize) as real
  {
    ChoosePositive(popSize, sampleSize);
    if t > 0 {
      HypergeometricMassIsConvolution(sampleSize, popSize, successInPop, t - 1);
      var d := Choose(popSize, sampleSize) as real;
      var a := Convolution(successInPop, popSize - successInPop, sampleSize, t - 1) as real;
      var b := HypergeometricTerm(sampleSize, popSize, successInPop, t - 1) as real;
      assert Convolution(successInPop, popSize - successInPop, sampleSize, t) as real == a + b;
      RealSumOverDenominator(a, b, d);
    }
  }

  lemma RealSumOverDenominator(a: real, b: real, d: real)
    requires d > 0.0
    ensures a / d + b / d == (a + b) / d
  {
  }

  /** The hypergeometric masses over all success counts 0 .. sampleSize sum
      to 1 (Vandermonde's identity). */
  lemma HypergeometricMassSumsToOne(sampleSize: nat, popSize: nat, successInPop: nat)
    requires sampleSize <= popSize && successInPop <= popSize
    ensures HypergeometricMass(sampleSize, popSize, successInPop, sampleSize + 1) == 1.0
  {
    HypergeometricMassIsConvolution(sampleSize, popSize, successInPop, sampleSize + 1);
    VandermondeSplit(successInPop, popSize, sampleSize);
    RealSelfQuotient(Choose(popSize, sampleSize) as real);
  }

  lemma RealSelfQuotient(d: real)
    requires d > 0.0
    ensures d / d == 1.0
  {
  }

  /** `hypergeometric_pmf` as written: its two assertions, then three calls
      to `nChooseK`, taken left to right. Where it returns, it returns the
      hypergeometric mass. */
  method HypergeometricRatio(sampleSize: int, popSize: int, successInPop: int, successInSample: int)
    returns (r: Outcome<real>)
    ensures sampleSize > popSize ==> r == Aborted(SampleExceedsPopulation)
    ensures sampleSize <= popSize && successInSample > successInPop
            ==> r == Aborted(SampleSuccessesExceedPopulationSuccesses)
    ensures r.Value? <==>
              && HypergeometricAsserts(sampleSize, popSize, successInPop, successInSample)
              && NChooseKAccepts(successInPop, successInSample)
              && NChooseKAccepts(popSize - successInPop, sampleSize - successInSample)
    ensures r.Value? ==>
              && 0 <= sampleSize <= popSize && 0 <= successInPop <= popSize
              && r.value == HypergeometricPmf(sampleSize, popSize, successInPop, successInSample)
  {
    if !(sampleSize <= popSize) {
      return Aborted(SampleExceedsPopulation);
    }
    if !(successInSample <= successInPop) {
      return Aborted(SampleSuccessesExceedPopulationSuccesses);
    }
    var a := CheckedNChooseK(successInPop, successInSample);
    if a.Aborted? {
      return Aborted(a.failure);
    }
    var b := CheckedNChooseK(popSize - successInPop, sampleSize - successInSample);
    if b.Aborted? {
      return Aborted(b.failure);
    }
    // Once the first two calls are accepted, so is the third.
    var c := CheckedNChooseK(popSize, sampleSize);
    return Value((a.value * b.value) as real / c.value as real);
  }

  /** What the assertions of `hypergeometric_pmf` leave to `nChooseK`:
      hypergeometric_pmf(8, 10, 5, 1) passes both and then asks for
      nChooseK(5, 7), seven failures out of five; its true mass is 0. */
  lemma HypergeometricExcessFailuresAborts()
    ensures HypergeometricAsserts(8, 10, 5, 1)
    ensures !NChooseKAccepts(10 - 5, 8 - 1)
    ensures HypergeometricPmf(8, 10, 5, 1) == 0.0
  {
  }
}
