// Optional values, for the C functions that return NULL or a pointer.

module Wrappers {
  datatype Option<T> = None | Some(value: T)
}
