/** The optional value used throughout the model: a file that may be absent,
    a message that may not be raised. */
module Wrappers {

  datatype Option<+T> = None | Some(value: T)
}
