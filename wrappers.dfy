/** Option and error-carrying results used throughout the model. */
module Wrappers {

  /** Rust's `Option<T>`. */
  datatype Option<T> = None | Some(value: T) {

    /** `unwrap_or`: the value, or `default` when absent. */
    function GetOr(default: T): T {
      if Some? then value else default
    }

    /** `or`: this option when present, otherwise `other`. */
    function Or(other: Option<T>): Option<T> {
      if Some? then this else other
    }
  }

  /** `Result<(), E>`: an operation that either succeeds or fails with an error. */
  datatype Outcome<E> = Pass | Fail(error: E)

  /** `Result<T, E>`. */
  datatype Result<T, E> = Ok(value: T) | Err(error: E)
}
