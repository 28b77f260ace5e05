/** Failure-carrying return values, used where the scripts throw or may be absent. */
module Wrappers {

  datatype Option<+T> = None | Some(value: T) {
    function GetOr(default: T): T {
      match this
      case Some(v) => v
      case None => default
    }
  }

  /** The outcome of an operation that throws `E` on failure. */
  datatype Result<+T, +E> = Ok(value: T) | Err(error: E)
}
