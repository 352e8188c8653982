/** A value that may be absent: an undefined array element, a missing map entry, a result that is not a number. */
module Wrappers {
  datatype Option<+T> = None | Some(value: T)
}
