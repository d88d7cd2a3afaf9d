/** Failure-carrying values shared by every module of the model. */
module Wrappers {

  /** A value that may be missing: the model's rendering of Python's `None`
      and of JavaScript's `null`/`undefined` results. */
  datatype Option<+T> = None | Some(value: T) {
    function GetOr(default: T): T {
      match this
      case Some(v) => v
      case None => default
    }
  }

  /** Either a computed value or the error a JavaScript function would throw. */
  datatype Result<+R, +E> = Success(value: R) | Failure(error: E)
}
