/** The optional value used for nullable fields and for `.first()`/`.last()` results. */
module Wrappers {
  datatype Option<+T> = None | Some(value: T)
}
