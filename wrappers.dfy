/** Option and Result, used for JavaScript's `undefined` results and for
    operations that throw. */
module Wrappers {

  datatype Option<+T> = None | Some(value: T) {
    /** `x ?? d`: the value, or the default when absent. */
    function GetOr(default: T): T {
      match this
      case Some(v) => v
      case None => default
    }
  }

  /** A value, or the error an operation throws instead of returning. */
  datatype Result<+T, +E> = Ok(value: T) | Err(error: E)
}
