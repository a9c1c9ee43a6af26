/** The optional value used where the source holds a possibly-null pointer. */
module Wrappers {

  datatype Option<+T> = None | Some(value: T)
}
