/** The optional value used for "not found" and for an input that does not parse. */
module Wrappers {

  datatype Option<+T> = None | Some(value: T)

}
