/** Failure-compatible wrappers shared by the whole model. */
module Wrappers {

  /** A value that may be absent; Python's `None` becomes `None`. */
  datatype Option<+T> = None | Some(value: T) {

    /** The wrapped value, or `default` when absent. */
    function GetOr(default: T): T {
      match this
      case Some(v) => v
      case None => default
    }
  }

  /** Either a computed value or the error the source would raise instead. */
  datatype Result<+R, +E> = Ok(value: R) | Err(error: E)
}
