/** The failure-free option type used for Rust's `Option` and `Result`. */
module Wrappers {

  datatype Option<+T> = None | Some(value: T)

  /** `Err` carries no payload: callers of the modelled code only test for it. */
  datatype Result<+T> = Ok(value: T) | Err
}
