/** Option and Result: the model's stand-ins for Go's nil values and
    `(value, error)` return pairs. */
module Wrappers {

  /** A value that may be absent (a nil map, a failed directory read, a
      callback that is not invoked). */
  datatype Option<+T> = None | Some(value: T) {

    /** The carried value, or `default` when there is none. */
    function GetOr(default: T): T {
      match this
      case Some(v) => v
      case None => default
    }
  }

  /** The outcome of an operation that returns a value or an error. */
  datatype Result<+R, +E> = Success(value: R) | Failure(error: E)
}
