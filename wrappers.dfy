/** The optional value used for missing keys, unreadable inputs and failed splits. */
module Wrappers {

  datatype Option<+T> = None | Some(value: T)
}
