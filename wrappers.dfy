/** Option and Result: a C# `null` and a thrown exception, as values. */
module Wrappers {

  /** A value that may be absent; `None` stands for a C# `null`. */
  datatype Option<+T> = None | Some(value: T) {
    predicate IsFailure() { None? }

    function PropagateFailure<U>(): Option<U>
      requires None?
    {
      None
    }

    function Extract(): T
      requires Some?
    {
      value
    }
  }

  /** The outcome of an operation that may throw: its value, or the error it throws. */
  datatype Result<+T, +E> = Success(value: T) | Failure(error: E) {
    predicate IsFailure() { Failure? }

    function PropagateFailure<U>(): Result<U, E>
      requires Failure?
    {
      Failure(error)
    }

    function Extract(): T
      requires Success?
    {
      value
    }
  }

  /** The outcome of a check that returns nothing but may throw. */
  datatype Outcome<+E> = Passed | Failed(error: E) {
    predicate IsFailure() { Failed? }

    function PropagateFailure<U>(): Result<U, E>
      requires Failed?
    {
      Failure(error)
    }
  }
}
