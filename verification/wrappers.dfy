/** Optional values and error-or-value results shared by every other module. */
module Wrappers {

  /** A value that may be absent: JavaScript's `undefined`/`null` where the source tests for it. */
  datatype Option<+T> = None | Some(value: T) {

    /** The value when present, `default` otherwise. */
    function GetOr(default: T): T
    {
      match this
      case Some(v) => v
      case None => default
    }
  }

  /** The outcome of a step that either yields a value or fails with an error. */
  datatype Result<+T, +E> = Ok(value: T) | Err(error: E)
}
