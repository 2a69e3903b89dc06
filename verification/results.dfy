/** Failure-carrying return types used in place of Go's `(value, error)` pairs
    and nil pointers. */
module Results {

  /** A possibly-absent value; `None` plays the part of a nil pointer or map. */
  datatype Option<+T> = None | Some(value: T)

  /** The outcome of an operation that either produces a value or fails with an error. */
  datatype Result<+T, +E> = Success(value: T) | Failure(error: E) {

    predicate IsFailure() {
      Failure?
    }

    function PropagateFailure<U>(): Result<U, E>
      requires Failure?
    {
      Failure(error)
    }

    function Extract(): T
      requires Success?
    {
      value
    }
  }

  /** The outcome of a check that either passes or reports an error (Go's `error`
      result, where `nil` is `Pass`). */
  datatype Outcome<+E> = Pass | Fail(error: E)
}
