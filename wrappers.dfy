/** The optional value used where the controller keeps a nullable reference (its media player). */
module Wrappers {
  datatype Option<+T> = None | Some(value: T)
}
