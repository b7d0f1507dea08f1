/** The usual optional-value datatype, standing in for JavaScript's `null`. */
module Wrappers {
  datatype Option<+T> = None | Some(value: T)
}
