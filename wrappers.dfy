/** The optional-value datatype used by the string primitives. */
module Wrappers {
  datatype Option<+T> = None | Some(value: T)
}
