/** A result that may be missing: a null pointer, or a call that halts the kernel. */
module Wrappers {
  datatype Option<+T> = None | Some(value: T)
}
