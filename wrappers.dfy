/** Option and Result, the two failure-carrying shapes every other module uses. */
module Wrappers {

  /** A value that may be absent: JavaScript's `null`/`undefined` or a NaN parse. */
  datatype Option<+T> = None | Some(value: T) {
    function GetOr(default: T): T {
      match this
      case Some(v) => v
      case None => default
    }
  }

  /** The outcome of an operation that can fail with a reason. */
  datatype Result<+R, +E> = Success(value: R) | Failure(error: E)
}
