/** The optional value used where the app reads `null` or `NaN`. */
module Wrappers {
  datatype Option<+T> = None | Some(value: T)
}
