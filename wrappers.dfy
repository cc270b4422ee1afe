/** A pointer-or-NULL result. */
module Wrappers {
  datatype Option<+T> = None | Some(value: T)
}
