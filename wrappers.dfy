/** The optional value used for JavaScript's `undefined` and for lookups that may find nothing. */
module Wrappers {

  datatype Option<+T> = None | Some(value: T)
}
