/** The optional-value type used for the C++ library calls that can throw. */
module Wrappers {

  datatype Option<+T> = None | Some(value: T)
}
