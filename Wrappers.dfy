/** The optional value used for JavaScript's `null` in the form state. */
module Wrappers {

  datatype Option<T> = None | Some(value: T)
}
