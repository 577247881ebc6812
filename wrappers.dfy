/** The optional value used for the kernel's `Option` results. */
module Wrappers {
  datatype Option<+T> = None | Some(value: T)
}
