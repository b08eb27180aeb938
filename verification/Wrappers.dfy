/** The usual optional value, for pointers that may be NULL. */
module Wrappers {
  datatype Option<+T> = None | Some(value: T)
}
