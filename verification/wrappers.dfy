/** Option and Result, the failure-carrying wrappers used across the model. */
module Wrappers {

  /** A value that may be absent: JavaScript's `null`/`undefined`, or NaN for numbers. */
  datatype Option<+T> = None | Some(value: T) {

    /** The value, or `default` when absent (the `x || default` idiom on a non-falsy value). */
    function GetOr(default: T): T {
      match this
      case Some(v) => v
      case None => default
    }
  }

  /** Either a value or the error that aborted the computation. */
  datatype Result<+R, +E> = Success(value: R) | Failure(error: E)
}
