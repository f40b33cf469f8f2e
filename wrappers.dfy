/** Option and Result, for values the dashboard may lack and for the flattener's exception path. */
module Wrappers {

  /** A value that may be missing: a null cell of the region table. */
  datatype Option<+T> = None | Some(value: T)

  /** The outcome of an operation that may raise instead of returning. */
  datatype Result<+R, +E> = Success(value: R) | Failure(error: E)
}
