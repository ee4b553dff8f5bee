/** The optional value used for C's nullable pointers (a `char *` that may be NULL). */
module Wrappers {
  datatype Option<+T> = None | Some(value: T)
}
