/** Option and Result: Go's nil-or-value fields and (value, error) returns. */
module Wrappers {

  /** A value that may be absent: a nil slice, a nil map or a nil error. */
  datatype Option<+T> = None | Some(value: T) {

    /** The value, or the default when absent. */
    function GetOr(default: T): T {
      match this
      case Some(v) => v
      case None => default
    }
  }

  /** The outcome of an operation that either yields a value or fails. */
  datatype Result<+R, +E> = Ok(value: R) | Err(error: E)
}
