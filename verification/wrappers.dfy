/** Optional values and results, standing in for JavaScript's `undefined` and thrown errors. */
module Wrappers {

  /** A value that may be absent (`undefined` / `null` in the application). */
  datatype Option<+T> = None | Some(value: T) {

    /** The value, or `default` when absent: the `x || default` idiom for objects and arrays. */
    function GetOr(default: T): T {
      match this
      case Some(v) => v
      case None => default
    }
  }

  /** Either a value or the error that a JavaScript expression would throw. */
  datatype Result<+R, +E> = Success(value: R) | Failure(error: E)
}
