/** The optional value used for partial conversions. */
module Wrappers {

  datatype Option<+T> = None | Some(value: T)
}
