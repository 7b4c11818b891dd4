/** Optional values and results with an error, as used throughout the model. */
module Wrappers {

  /** A value that may be absent (Python's `None`, or a JSON key that is missing or null). */
  datatype Option<+T> = None | Some(value: T) {

    /** The value, or `default` when absent (Python's `d.get(key, default)`). */
    function GetOr(default: T): T {
      match this
      case Some(v) => v
      case None => default
    }
  }

  /** Either a value or an error message (an exception raised in the source). */
  datatype Result<+T, +E> = Ok(value: T) | Err(error: E)
}
