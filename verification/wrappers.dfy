/** `Option`, `Result` and `Outcome`, shared by every module of the model. */
module Wrappers {

  /** A value that may be absent: an XML attribute, the result of a lookup. */
  datatype Option<+T> = None | Some(value: T) {
    /** The JavaScript idiom `x || default` for a value that is either absent or present. */
    function GetOr(default: T): T {
      match this
      case Some(v) => v
      case None => default
    }
  }

  /** The outcome of an operation that returns a value or throws. */
  datatype Result<+T, +E> = Ok(value: T) | Err(error: E)

  /** The outcome of an operation that returns nothing or throws. */
  datatype Outcome<+E> = Pass | Fail(error: E)
}
