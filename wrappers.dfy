/** Failure-compatible wrappers shared by the whole model. */
module Wrappers {

  /** A value that may be absent: a missing dictionary key, or Python's None. */
  datatype Option<+T> = None | Some(value: T) {

    /** The value, or `default` when absent (Python's `dict.get(key, default)`). */
    function GetOr(default: T): T {
      match this
      case Some(v) => v
      case None => default
    }
  }

  /** The outcome of a computation that may raise. */
  datatype Result<+T, +E> = Ok(value: T) | Err(error: E)

  /** The outcome of a procedure that only changes state and may raise. */
  datatype Outcome<+E> = Pass | Fail(error: E)
}
