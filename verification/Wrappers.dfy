/** The usual optional value: a pointer that may be NULL, a field not read yet. */
module Wrappers {
  datatype Option<+T> = None | Some(value: T)
}
