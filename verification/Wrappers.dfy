/** The optional value used throughout the model where the source returns a null pointer. */
module Wrappers {
  datatype Option<+T> = None | Some(value: T)
}
