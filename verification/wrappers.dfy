/** Small failure-compatible wrapper shared by every module of the model. */
module Wrappers {

  /** A value that may be absent: Go's `(T, bool)` lookups and NULL-able columns. */
  datatype Option<+T> = None | Some(value: T)
}
