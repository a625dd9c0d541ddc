/** The optional value used throughout the model for "no match" and "no value". */
module Wrappers {

  datatype Option<+T> = None | Some(value: T)
}
