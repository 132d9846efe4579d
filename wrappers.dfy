// A value that may be absent: a C pointer that may be NULL, a lookup that
// may find nothing.

module Wrappers {
  datatype Option<T> = None | Some(value: T)
}
