/** Result types shared by the modelled components. */
module Wrappers {
  datatype Option<+T> = None | Some(value: T)

  /** A value, or the error a C++ exception or a failed assertion stands for. */
  datatype Result<+T, +E> = Success(value: T) | Failure(error: E) {
    predicate IsFailure() {
      Failure?
    }

    function PropagateFailure<U>(): Result<U, E>
      requires Failure?
    {
      Failure(error)
    }

    function Extract(): T
      requires Success?
    {
      value
    }
  }
}
