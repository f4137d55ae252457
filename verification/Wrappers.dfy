/** A value that may be absent: a null pointer, a hole, a search without result. */
module Wrappers {
  datatype Option<+T> = None | Some(value: T)
}
