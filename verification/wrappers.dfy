/** Optional values and results with an error, as used throughout the model. */
module Wrappers {

  /** A value that may be absent (PHP `null`, an unset array key). */
  datatype Option<+T> = None | Some(value: T) {

    /** The wrapped value, or `default` when there is none. */
    function GetOr(default: T): T {
      match this
      case Some(v) => v
      case None => default
    }
  }

  /** The result of a step that may throw: a value, or the exception raised. */
  datatype Result<+T, +E> = Ok(value: T) | Err(error: E)
}
