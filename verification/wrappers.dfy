/** Failure-compatible wrappers for values that may be absent (a JavaScript `null`)
    and for operations that may throw. */
module Wrappers {

  /** `Some(v)` for a value, `None` for `null`. */
  datatype Option<+T> = None | Some(value: T) {

    /** The wrapped value, or `default` when there is none. */
    function GetOr(default: T): T {
      match this
      case Some(v) => v
      case None => default
    }
  }

  /** `Success(v)` for a normal return, `Failure(e)` for a thrown error. */
  datatype Result<+T, +E> = Success(value: T) | Failure(error: E)
}
