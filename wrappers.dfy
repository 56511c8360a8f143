/** Option and Result types standing in for Java's `null` and thrown exceptions. */
module Wrappers {

  /** A value that may be absent (`null` in the Java and C++ source). */
  datatype Option<+T> = None | Some(value: T) {
    function GetOr(default: T): T {
      match this
      case Some(v) => v
      case None => default
    }
  }

  /** A computation that either succeeds or throws/returns an error. */
  datatype Result<+T, +E> = Success(value: T) | Failure(error: E)
}
