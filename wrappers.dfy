/** The optional value used where the source can produce `undefined`. */
module Wrappers {
  datatype Option<+T> = None | Some(value: T)
}
