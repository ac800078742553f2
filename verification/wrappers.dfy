/** The optional value used for "this field has no error". */
module Wrappers {

  datatype Option<+T> = None | Some(value: T)
}
