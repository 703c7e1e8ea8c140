/** The optional value used for Go's `(value, err)` pairs and for nil. */
module Wrappers {
  datatype Option<+T> = None | Some(value: T)
}
