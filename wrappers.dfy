/** The optional value the C code expresses with a NULL pointer or a -1 index. */
module Wrappers {
  datatype Option<+T> = None | Some(value: T)
}
