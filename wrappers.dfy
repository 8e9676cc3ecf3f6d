/** Optional values and error outcomes shared by the task modules. */
module Wrappers {

  /** A value that may be absent: a missing field, or a lookup that found nothing. */
  datatype Option<+T> = None | Some(value: T) {

    /** The wrapped value, or `default` when absent. */
    function GetOr(default: T): T {
      match this
      case Some(v) => v
      case None => default
    }
  }

  /** The outcome of an operation that either yields a value or fails with an error. */
  datatype Result<+T, +E> = Ok(value: T) | Err(error: E)
}
