/** Failure-carrying datatypes shared by every module of the model.

    - `Option<T>` stands for a floating-point result that may be not-a-number:
      `None` is NaN (or any other non-finite value the source would produce).
    - `Result<T, E>` stands for an operation that either returns normally or
      throws one of the exceptions enumerated by `E`.
    - `Outcome<E>` is a `Result` without a value, for `void` operations that
      may throw.
 */
module Wrappers {

  datatype Option<+T> = None | Some(value: T) {
    predicate IsFailure() {
      None?
    }

    function PropagateFailure<U>(): Option<U>
      requires None?
    {
      None
    }

    function Extract(): T
      requires Some?
    {
      value
    }
  }

  datatype Result<+T, +E> = Success(value: T) | Failure(error: E) {
    predicate IsFailure() {
      Failure?
    }

    function PropagateFailure<U>(): Result<U, E>
      requires Failure?
    {
      Failure(error)
    }

    function Extract(): T
      requires Success?
    {
      value
    }
  }

  datatype Outcome<+E> = Pass | Fail(error: E) {
    predicate IsFailure() {
      Fail?
    }
  }
}
