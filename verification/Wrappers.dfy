/** An optional value, standing for the null pointers and error returns of the source. */
module Wrappers {
  datatype Option<+T> = None | Some(value: T)
}
