/** The optional value used where the JavaScript code has null, undefined or NaN. */
module Wrappers {
  datatype Option<+T> = None | Some(value: T)
}
