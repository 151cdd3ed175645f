/** The result of an operation that may have none: NULL, or a failure without further detail. */
module Wrappers {

  datatype Option<+T> = None | Some(value: T)
}
