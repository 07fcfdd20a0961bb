/** Rust's `Option`, the result type of every search in this crate. */
module Wrappers {
  datatype Option<+T> = None | Some(value: T)
}
