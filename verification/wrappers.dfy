/** Failure-carrying result types shared by every module of the model. */
module Wrappers {

  /** An optional value: a JavaScript `null`/`undefined`/NaN outcome is `None`. */
  datatype Option<+T> = None | Some(value: T) {
    function GetOr(default: T): T {
      match this
      case Some(v) => v
      case None => default
    }
  }

  /** A computation that either produced a value or failed with an error. */
  datatype Result<+R, +E> = Success(value: R) | Failure(error: E)
}
