/** The optional-value datatype used wherever the C code passes around a
    pointer that may be NULL. */
module Wrappers {

  datatype Option<+T> = None | Some(value: T)
}
