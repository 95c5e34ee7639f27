/** The optional value that the C code passes back through an out-pointer
    together with a 0/1 success flag. */
module Wrappers {
  datatype Option<+T> = None | Some(value: T)
}
