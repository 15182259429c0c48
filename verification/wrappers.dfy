/** Option and Result, the two failure-carrying shapes every handler uses. */
module Wrappers {

  /** A nullable column or an optional request field: None is SQL NULL / JS undefined. */
  datatype Option<+T> = None | Some(value: T) {
    function GetOr(default: T): T {
      match this
      case Some(v) => v
      case None => default
    }
  }

  datatype Result<+R, +E> = Success(value: R) | Failure(error: E)
}
