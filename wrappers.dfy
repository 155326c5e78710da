/** Option, the shape of Rust's `Option<&T>` / `Option<&mut T>` results. */
module Wrappers {

  datatype Option<+T> = None | Some(value: T)

}
