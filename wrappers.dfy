/** Optional values (C#'s nullable `T?`) and results of operations that can throw. */
module Wrappers {

  /** A value that may be absent: `None` stands for C#'s `null`. */
  datatype Option<+T> = None | Some(value: T) {

    /** The value, or `default` when absent (C#'s `??`). */
    function GetOr(default: T): T {
      match this
      case Some(v) => v
      case None => default
    }
  }

  /** Either a value or the exception the operation throws instead. */
  datatype Result<+R, +E> = Success(value: R) | Failure(error: E)
}
