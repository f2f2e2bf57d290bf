/** A value that may be missing; also the outcome of an operation that may raise an exception. */
module Wrappers {

  datatype Option<+T> = None | Some(value: T)
}
