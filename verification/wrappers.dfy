/** Failure-carrying values used throughout the model. */
module Wrappers {

  /** A value that may be absent: JavaScript's `undefined` (or any falsy value
      where the source tests truthiness). */
  datatype Option<+T> = None | Some(value: T) {

    /** The carried value, or `default` when absent. */
    function GetOr(default: T): T {
      match this
      case Some(v) => v
      case None => default
    }
  }

  /** The outcome of an operation that may throw: `Failure` stands for the
      exception the source would raise. */
  datatype Result<+R, +E> = Success(value: R) | Failure(error: E)
}
