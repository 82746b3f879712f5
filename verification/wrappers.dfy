/** Failure-compatible Option and Result types shared by the codec and the writer. */
module Wrappers {

  datatype Option<+T> = None | Some(value: T)

  /** `Success` carries a value, `Failure` an error; usable with `:-`. */
  datatype Result<+T, +E> = Success(value: T) | Failure(error: E) {

    predicate IsFailure() {
      Failure?
    }

    function PropagateFailure<U>(): Result<U, E>
      requires Failure?
    {
      Failure(error)
    }

    function Extract(): T
      requires Success?
    {
      value
    }
  }

  /** A status without a value: the `Result<(), E>` of a writer call. */
  datatype Outcome<+E> = Pass | Fail(error: E)
}
