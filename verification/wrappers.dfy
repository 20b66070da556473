/** Failure-carrying result types shared by the pipeline modules. */
module Wrappers {

  /** A value that may be absent: a pandas cell that may hold NaN. */
  datatype Option<+T> = None | Some(value: T)

  /** The outcome of an operation that can raise. */
  datatype Result<+R, +E> = Success(value: R) | Failure(error: E)
}
