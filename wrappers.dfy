/** A value that may be missing: pandas' NaN in a text column. */
module Wrappers {
  datatype Option<+T> = None | Some(value: T)
}
