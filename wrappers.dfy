/** Rust's `Option`, the result type of hit tests and of scattering. */
module Wrappers {

  datatype Option<+T> = None | Some(value: T)
}
