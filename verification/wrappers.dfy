/** The exceptions the Python code raises, and a failure-compatible Result
    type so that `var x :- f(y); ...` propagates the first one raised, the
    way an uncaught exception leaves the enclosing call. */
module Wrappers {

  /** The exception classes that can escape the modelled functions. */
  datatype Error =
    | ValueError           // bad block/grid shape, out-of-range sample, byte out of range
    | IndexError           // `roundKeys[0]` / `roundKeys[-1]` on an empty list
    | ZeroDivisionError    // `x // 0` or `x % 0`
    | InsufficientSamples  // the repository's InsufficientSamplesException

  datatype Result<+T> = Ok(value: T) | Err(error: Error) {

    predicate IsFailure() {
      Err?
    }

    function PropagateFailure<U>(): Result<U>
      requires Err?
    {
      Err(error)
    }

    function Extract(): T
      requires Ok?
    {
      value
    }
  }
}
