/** The optional value used across the model for JavaScript's `null` and `undefined`. */
module Wrappers {
  datatype Option<+T> = None | Some(value: T)
}
