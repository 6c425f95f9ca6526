/** Failure-compatible result types shared by the model: Go's `(value, error)`
    returns become a `Result`, a bare `error` return becomes an `Outcome`,
    and a lookup that may find nothing becomes an `Option`. */
module Results {

  datatype Option<+T> = None | Some(value: T) {
    predicate IsFailure() { None? }

    function PropagateFailure<U>(): Option<U>
      requires None?
    {
      None
    }

    function Extract(): T
      requires Some?
    {
      value
    }
  }

  datatype Result<+T, +E> = Success(value: T) | Failure(error: E) {
    predicate IsFailure() { Failure? }

    function PropagateFailure<U>(): Result<U, E>
      requires Failure?
    {
      Failure(error)
    }

    function Extract(): T
      requires Success?
    {
      value
    }
  }

  /** A Go function that returns only an `error`: `Pass` is a nil error. */
  datatype Outcome<+E> = Pass | Fail(error: E)
}
