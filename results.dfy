/** Failures raised by the library and the wrappers that carry them.

    The library signals every failure with a C++ exception; the model returns
    `Err(e)` instead, where the constructor of `e` names the exception type and
    its `cause` names the guard that fired, so that the order of the guards is
    observable. */
module Results {

  /** The guard that rejected an input. */
  datatype Cause =
    | AlphaOutOfRange        // an alpha level outside [0, 1]
    | EmptyCutInterval       // an alpha-cut built on the empty interval
    | TooFewCuts             // a fuzzy number with fewer than two cuts
    | FirstAlphaNotZero      // the lowest cut is not at alpha 0
    | LastAlphaNotOne        // the highest cut is not at alpha 1
    | NotNested              // a cut that is not inside the alpha-0 cut
    | Disjoint               // intersection or union of intervals that do not meet
    | DivisorContainsZero    // division by an interval or fuzzy number around 0
    | NegativeExponent       // interval power with a negative exponent
    | HigherAlpha            // alpha-cut containment asked from the higher level
    | BadShape               // factory parameters out of order
    | BadCutCount            // factory asked for fewer than two cuts
    | PossibilityOutOfRange
    | NecessityOutOfRange
    | MembershipOutOfRange

  /** The C++ exception type: std::out_of_range, std::invalid_argument, std::domain_error. */
  datatype Error =
    | OutOfRange(cause: Cause)
    | InvalidArgument(cause: Cause)
    | DomainError(cause: Cause)

  datatype Result<+T> = Ok(value: T) | Err(error: Error)

  datatype Option<+T> = None | Some(value: T)
}
