/** The optional value used for error returns throughout the model. */
module Wrappers {
  datatype Option<+T> = None | Some(value: T)
}
