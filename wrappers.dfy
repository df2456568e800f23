/** The optional value used for the result of parsing a line of input. */
module Wrappers {

  datatype Option<+T> = None | Some(value: T)
}
