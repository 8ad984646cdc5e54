/** An optional value: a pointer that may be null, or input that may run out. */
module Wrappers {
  datatype Option<+T> = None | Some(value: T)
}
