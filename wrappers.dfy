/** The optional value used for operations that may give up. */
module Wrappers {

  datatype Option<+T> = None | Some(value: T)
}
