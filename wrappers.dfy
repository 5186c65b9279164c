/** Option type used for the Go functions that return a value together with an error. */
module Wrappers {
  datatype Option<+T> = None | Some(value: T)
}
