/** The optional value that stands in for a NULL pointer or a missing result. */
module Wrappers {

  datatype Option<+T> = None | Some(value: T)
}
