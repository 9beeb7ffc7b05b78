/** The optional-value datatype that stands in for a nullable C pointer. */
module Wrappers {

  datatype Option<+T> = None | Some(value: T)
}
