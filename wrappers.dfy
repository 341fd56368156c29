/** The optional value used for parse results and raised events. */
module Wrappers {
  datatype Option<+T> = None | Some(value: T)
}
