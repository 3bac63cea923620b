/** Failure-compatible result types used in place of the C++ exceptions. */
module Wrappers {

  /** An optional value: `None` stands for "not found" (`npos`, a missing key). */
  datatype Option<+T> = None | Some(value: T)

  /** Either a value or the error that a thrown exception carried. */
  datatype Result<+R, +E> = Ok(value: R) | Err(error: E) {

    predicate IsFailure() {
      Err?
    }

    function PropagateFailure<U>(): Result<U, E>
      requires Err?
    {
      Err(error)
    }

    function Extract(): R
      requires Ok?
    {
      value
    }
  }
}
