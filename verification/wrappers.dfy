/** Rust's `Option<T>`, used for optional fields and for the result of building a node. */
module Wrappers {

  datatype Option<+T> = None | Some(value: T)
}
