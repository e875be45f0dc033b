/** The optional value used for nullable JSON fields and for operations that can fail. */
module Wrappers {
  datatype Option<+T> = None | Some(value: T)
}
