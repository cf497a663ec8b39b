/** The "value or nothing" answer that the C code encodes as a NULL pointer or a -1 sentinel. */
module Wrappers {
  datatype Option<+T> = None | Some(value: T)
}
