/** Failure-carrying datatypes used across the model: a thrown error is a
    `Failure`/`Fail`, a missing value (JS `null`/`undefined`) is `None`. */
module Wrappers {

  datatype Option<+T> = None | Some(value: T) {

    /** The wrapped value, or `default` when there is none. */
    function GetOr(default: T): T {
      match this
      case Some(v) => v
      case None => default
    }
  }

  /** A computation that either yields a value or throws an error. */
  datatype Result<+T, +E> = Success(value: T) | Failure(error: E)

  /** A computation run only for its checks: it either passes or throws. */
  datatype Outcome<+E> = Pass | Fail(error: E)
}
