/** The failure side of the model: every `assert` of the mass-function header
    aborts the process when its condition is false. The model returns the
    assertion that fired instead of terminating. */
module Aborts {

  /** One constructor per distinct assertion message. */
  datatype Failure =
    | NegativeK                                // "Negative k"
    | NonPositiveN                             // "0 or less n"
    | KExceedsN                                // "K larger than k"
    | MoreSuccessesThanTrials                  // binomial_pmf
    | ProbabilityOutsideClosedUnit             // binomial_pmf: prob not in [0, 1]
    | MeanNotPositive                          // poisson_pmf
    | NegativeSuccesses                        // poisson_pmf and neg_binomial_pmf
    | NotEnoughTrials                          // neg_binomial_pmf
    | ProbabilityOutsideOpenUnit               // neg_binomial_pmf: prob not in (0, 1)
    | SampleExceedsPopulation                  // hypergeometric_pmf
    | SampleSuccessesExceedPopulationSuccesses // hypergeometric_pmf

  /** Either the value a call returns or the assertion that aborted it. */
  datatype Outcome<+T> = Value(value: T) | Aborted(failure: Failure)
}
