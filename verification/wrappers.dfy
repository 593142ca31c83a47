/** The optional result used where the C code returns a pointer or NULL. */
module Wrappers {

  datatype Option<+T> = None | Some(value: T)
}
