/** Option and Result values used for the scripts' optional arguments and raised errors. */
module Wrappers {

  /** An argument that may be `None` in the source. */
  datatype Option<+T> = None | Some(value: T)

  /** Either a value or the error the source raises instead of returning. */
  datatype Result<+R, +E> = Success(value: R) | Failure(error: E)
}
