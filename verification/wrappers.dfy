/** Failure-compatible wrappers used across the model: an optional value
    (SQL NULL, a missing row, an absent seed file) and a success/failure
    outcome (the external text-generation call). */
module Wrappers {

  datatype Option<+T> = None | Some(value: T) {

    /** The wrapped value, or `default` when there is none. */
    function GetOr(default: T): T {
      match this
      case Some(v) => v
      case None => default
    }
  }

  datatype Result<+R, +E> = Ok(value: R) | Err(error: E)
}
