/** Failure-compatible wrappers shared by the whole model. */
module Wrappers {

  /** The conventional Some/None datatype, standing for Rust's `Option`. */
  datatype Option<+T> = None | Some(value: T) {

    /** Returns the value in Some, or `default` for None (Rust's `unwrap_or`). */
    function GetOr(default: T): T {
      match this
      case Some(v) => v
      case None => default
    }
  }

  /** Rust's `Result`: either a value or an error. */
  datatype Result<+R, +E> = Ok(value: R) | Err(error: E)
}
