/** The optional value used where the script either has a value or has none. */
module Wrappers {
  datatype Option<+T> = None | Some(value: T)
}
