/** Failure-compatible wrappers used in place of the exceptions and empty
    optionals of the original library. */
module Wrappers {

  datatype Option<+T> = None | Some(value: T)

  /** Either a value or the reason the operation failed. Usable with `:-`. */
  datatype Result<+T, +E> = Success(value: T) | Failure(error: E) {

    predicate IsFailure() {
      Failure?
    }

    function PropagateFailure<U>(): Result<U, E>
      requires Failure?
    {
      Failure(error)
    }

    function Extract(): T
      requires Success?
    {
      value
    }
  }
}
