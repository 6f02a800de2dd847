/** `Option` and `Outcome`, shared by the heap and the tree models. */
module Wrappers {

  /** Rust's `Option`: a child link of the tree, the answer of `min`/`pop`. */
  datatype Option<+T> = None | Some(value: T)

  /** Outcome of code that indexes a `Vec`: either a value, or the panic raised by
      an out-of-bounds read at `index`. */
  datatype Outcome<+T> = Ok(value: T) | IndexOutOfBounds(index: nat)
}
