/** The optional value used wherever JavaScript yields NaN or null. */
module Wrappers {

  datatype Option<+T> = None | Some(value: T)
}
