/** The optional-value type used for "no match" and "no record". */
module Wrappers {
  datatype Option<+T> = None | Some(value: T)
}
