/** A value that may be absent: the null pointers and unset fields of the C code. */
module Wrappers {

  datatype Option<+T> = None | Some(value: T)
}
