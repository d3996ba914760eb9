/** The optional value shared by the server and client models. */
module Wrappers {

  datatype Option<+T> = None | Some(value: T)
}
