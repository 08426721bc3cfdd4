/** Failure-carrying wrappers shared by the other modules. */
module Wrappers {

  /** Rust's Option: Some(value) or None. */
  datatype Option<+T> = None | Some(value: T)

  /** A computation that either produces a value or stops with an error
      (a panic of the macro or of the code it generates). */
  datatype Result<+T, +E> = Ok(value: T) | Err(error: E)
}
