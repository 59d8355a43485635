/** The optional value used for the search result and the supplied exponent. */
module Wrappers {

  datatype Option<T> = None | Some(value: T)
}
