/** Optional values and success-or-failure results shared by the attendance modules. */
module Wrappers {

  /** A value that may be absent; stands for a nullable field or an omitted request parameter. */
  datatype Option<+T> = None | Some(value: T) {
    /** The wrapped value, or `default` when absent. */
    function GetOr(default: T): T {
      match this
      case Some(v) => v
      case None => default
    }
  }

  /** The outcome of an operation: a payload, or a tagged rejection. */
  datatype Result<+R, +E> = Success(value: R) | Failure(error: E)
}
