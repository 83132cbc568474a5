/** The optional value used for pandas' missing values (None and NaN alike). */
module Wrappers {

  datatype Option<+T> = None | Some(value: T)
}
