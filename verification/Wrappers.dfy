/** A value that may be missing; where an operation throws, the missing result. */
module Wrappers {
  datatype Option<+T> = None | Some(value: T)
}
