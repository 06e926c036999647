/** The optional value the engine stores in each slot and its iterator yields. */
module Wrappers {

  /** Rust's `Option<T>`: a slot is either empty or holds one element. */
  datatype Option<+T> = None | Some(value: T)
}
