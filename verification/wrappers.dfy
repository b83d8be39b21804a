/** Rust's `Option`, used for every "may be absent" result in the model. */
module Wrappers {

  datatype Option<+T> = None | Some(value: T)
}
