/** A value that may be absent: a JavaScript property that is missing or not a number. */
module Wrappers {
  datatype Option<+T> = None | Some(value: T)
}
