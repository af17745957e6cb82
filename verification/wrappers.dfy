/** The optional value used wherever the source reads a row or a field that may be absent. */
module Wrappers {
  datatype Option<T> = None | Some(value: T)
}
