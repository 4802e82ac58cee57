/** The Option type that stands for Rust's and Python's optional values. */
module Wrappers {
  datatype Option<+T> = None | Some(value: T)
}
