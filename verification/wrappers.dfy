/** Failure-compatible result types and the failure kinds the sampler reports. */
module Wrappers {

  datatype Option<+T> = None | Some(value: T)

  datatype Result<+T, +E> = Ok(value: T) | Err(error: E) {
    predicate IsFailure() { Err? }
    function PropagateFailure<U>(): Result<U, E>
      requires Err?
    {
      Err(error)
    }
    function Extract(): T
      requires Ok?
    {
      value
    }
  }

  datatype Outcome<+E> = Pass | Fail(error: E)

  /** One constructor per kind of exception the modelled code throws. */
  datatype Error =
    | IllegalArgument      // IllegalArgumentException raised by a validation
    | IndexOutOfBounds     // an array access on an empty matrix (ArrayIndexOutOfBoundsException)
    | NullPointer          // a dereference of a start point that is not set
    | StartPointNotSet     // "Start point is not set"
    | OutOfBounds          // Boundary: the point does not satisfy Ax <= b beyond eps
    | Unbounded            // the sampling region or the LP is unbounded
    | NotFullDimensional   // the feasible segment has no length
    | AccuracyError        // the deprecated sampler's segment does not contain 0
    | Infeasible           // InfeasibleSystemException, or the redundancy check's infeasible LP
    | SingleSolution       // the equality system pins every variable
    | NoSpaceToSample      // the deprecated sampler in homogeneous mode with fewer than two coordinates
    | NotHomogeneous       // the deprecated sampler's start point does not end in 1 in homogeneous mode
    | NegativeArraySize    // a result array of negative length was requested
}
