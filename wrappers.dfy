/** The optional value used for a score that may be missing (NaN) and for a position that may not exist. */
module Wrappers {

  datatype Option<T> = None | Some(value: T)
}
