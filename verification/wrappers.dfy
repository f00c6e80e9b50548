/** Rust's `Option`, used wherever the source takes or returns one. */
module Wrappers {

  datatype Option<T> = None | Some(value: T)
}
