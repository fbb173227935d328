/** Result shapes shared by every component. */
module Wrappers {

  datatype Option<+T> = None | Some(value: T)

  /** What a Rust function can do: return `Ok`, return `Err`, or panic. */
  datatype Outcome<+T, +E> = Ok(value: T) | Err(error: E) | Panic
}
