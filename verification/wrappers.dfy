/** Failure-compatible result types shared by the whole model. */
module Wrappers {

  /** A value that may be absent; stands for PHP's nullable values. */
  datatype Option<+T> = None | Some(value: T) {

    /** The carried value, or `default` when absent (PHP's `$x === null ? default : $x`). */
    function GetOr(default: T): T {
      match this
      case Some(v) => v
      case None => default
    }
  }

  /** Either a value or the error an operation raised instead. */
  datatype Result<+R, +E> = Success(value: R) | Failure(error: E)
}
