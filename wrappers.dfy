/** The optional value used for absent cookies, missing errors and missing regions. */
module Wrappers {

  datatype Option<+T> = None | Some(value: T)
}
