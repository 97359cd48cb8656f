/** Failure-carrying value types shared by the model. */
module Wrappers {

  /** A value that may be absent: a missing key, a failed fetch, a failed parse. */
  datatype Option<+T> = None | Some(value: T) {

    /** The carried value, or `default` when there is none. */
    function GetOr(default: T): T {
      match this
      case Some(v) => v
      case None => default
    }
  }

  /** The outcome of an operation that raises in core.py. */
  datatype Result<+R, +E> = Success(value: R) | Failure(error: E)
}
