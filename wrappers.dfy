/** A value that may be absent: JavaScript's `null`, or a lookup that has nothing to give. */
module Wrappers {

  datatype Option<+T> = None | Some(value: T)
}
