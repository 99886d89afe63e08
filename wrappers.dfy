/** Optional values and results with an error, as the planner's lookups and parsers return them. */
module Wrappers {

  /** A value that may be absent: JavaScript's `undefined`/`null`, or NaN for numbers. */
  datatype Option<+T> = None | Some(value: T) {
    function GetOr(default: T): T {
      match this
      case Some(v) => v
      case None => default
    }
  }

  /** The outcome of an operation that the source either completes or rejects with a message. */
  datatype Result<+R, +E> = Ok(value: R) | Err(error: E)
}
