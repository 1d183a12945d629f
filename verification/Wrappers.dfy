/** A value, or the NULL the source returns instead of one. */
module Wrappers {
  datatype Option<+T> = None | Some(value: T)
}
