/** A value that may be absent: the source's NULL-able pointers. */
module Wrappers {
  datatype Option<+T> = None | Some(value: T)
}
