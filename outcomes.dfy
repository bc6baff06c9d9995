/** Option and Result values standing for Python's `None` and for raised exceptions. */
module Outcomes {

  datatype Option<+T> = None | Some(value: T)

  /** `Failure` carries the exception the Python code would have raised at that point. */
  datatype Result<+T, +E> = Success(value: T) | Failure(error: E) {
    predicate IsFailure() { Failure? }

    function PropagateFailure<U>(): Result<U, E>
      requires Failure?
    {
      Failure(error)
    }

    function Extract(): T
      requires Success?
    {
      value
    }
  }
}
