/** Failure-compatible wrappers: a thrown Java exception becomes a `Failure` or `Fail`
    value, and `null` becomes `None`. */
module Wrappers {

  datatype Option<+T> = None | Some(value: T)

  datatype Result<+R, +E> = Success(value: R) | Failure(error: E) {
    predicate IsFailure() {
      Failure?
    }

    function PropagateFailure<U>(): Result<U, E>
      requires Failure?
    {
      Failure(error)
    }

    function Extract(): R
      requires Success?
    {
      value
    }
  }

  /** The result of a `void` Java method: it returned normally, or it threw. */
  datatype Outcome<+E> = Pass | Fail(error: E)
}
