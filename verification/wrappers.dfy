/** Rust's `Option`, used for the optional held piece, grid cells and move results. */
module Wrappers {
  datatype Option<A> = None | Some(value: A)
}
