/** A value that may be absent: JavaScript's `null` for an optional field. */
module Wrappers {

  datatype Option<+T> = None | Some(value: T)
}
