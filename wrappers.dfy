/** Ruby's `nil` for the nullable fields of the model. */
module Wrappers {

  datatype Option<+T> = None | Some(value: T)

}
