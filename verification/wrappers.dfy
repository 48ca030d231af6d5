/** Helper datatypes shared by every module of the model. */
module Wrappers {

  /** Rust's `Option<T>`. */
  datatype Option<+T> = None | Some(value: T) {
    function GetOr(default: T): T {
      match this
      case Some(v) => v
      case None => default
    }
  }

  /** A result whose failure is a human-readable message (an `expect` message in the source). */
  datatype Result<+T> = Ok(value: T) | Err(error: string)
}
