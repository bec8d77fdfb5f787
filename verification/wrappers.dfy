/** Failure-compatible wrappers shared by the whole model. */
module Wrappers {

  /** An optional value. */
  datatype Option<T> = None | Some(value: T) {

    /** The held value, or `default` when there is none. */
    function GetOr(default: T): T {
      match this
      case Some(v) => v
      case None => default
    }
  }

  /** Either a value or an error; usable with `:-`. */
  datatype Result<T, E> = Success(value: T) | Failure(error: E) {

    predicate IsFailure() {
      Failure?
    }

    function PropagateFailure<U>(): Result<U, E>
      requires Failure?
    {
      Failure(error)
    }

    function Extract(): T
      requires Success?
    {
      value
    }
  }
}
