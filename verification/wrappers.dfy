/** An optional value, for searches and matches that may fail. */
module Wrappers {
  datatype Option<+T> = None | Some(value: T)
}
