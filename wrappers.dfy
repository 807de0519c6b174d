/** The optional value used for JavaScript's "undefined / null or a value". */
module Wrappers {
  datatype Option<+T> = None | Some(value: T)
}
