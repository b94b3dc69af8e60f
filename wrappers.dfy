/** The optional value used for library calls that may yield nothing or raise. */
module Wrappers {

  datatype Option<+T> = None | Some(value: T)
}
