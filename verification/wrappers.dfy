/** Failure-compatible wrappers used for the error paths of the model. */
module Wrappers {

  /** A value that may be absent; stands for Java's `-1` index results. */
  datatype Option<+T> = None | Some(value: T)

  /** Either a computed value or the exception the source would throw. */
  datatype Result<+T, +E> = Success(value: T) | Failure(error: E) {

    predicate IsFailure() {
      Failure?
    }

    function PropagateFailure<U>(): Result<U, E>
      requires Failure?
    {
      Failure(error)
    }

    function Extract(): T
      requires Success?
    {
      value
    }
  }
}
