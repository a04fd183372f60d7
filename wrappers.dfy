/** The optional value used for JavaScript's possibly-missing properties. */
module Wrappers {

  datatype Option<+T> = None | Some(value: T)
}
