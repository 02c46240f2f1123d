/** Option, used for the outcome of an operation that may throw in the source. */
module Wrappers {

  datatype Option<+T> = None | Some(value: T)
}
