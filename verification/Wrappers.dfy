/** A value that may be missing: a nil pointer or an absent map entry. */
module Wrappers {
  datatype Option<+T> = None | Some(value: T)
}
