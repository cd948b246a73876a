/** The usual optional-value datatype, used where the source returns `npos` or reads out of range. */
module Wrappers {
  datatype Option<+T> = None | Some(value: T)
}
