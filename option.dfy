/** The optional value used for a direction that may not have been requested yet. */
module Wrappers {

  datatype Option<+T> = None | Some(value: T)
}
