// The optional value that the Rust sources spell `Option<T>`.
module Wrappers {
  datatype Option<+T> = None | Some(value: T)
}
