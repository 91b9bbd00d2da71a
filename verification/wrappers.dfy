/** The optional value of the model: a possibly-null pointer, or a search that may find nothing. */
module Wrappers {

  datatype Option<+T> = None | Some(value: T)
}
