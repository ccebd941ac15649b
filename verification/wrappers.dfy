/** Option and Result datatypes shared by the pool and the buffer models. */
module Wrappers {

  /** An optional value; also used for a storage cell that may be uninitialised. */
  datatype Option<+T> = None | Some(value: T)

  /** The outcome of an operation that can refuse its input. */
  datatype Result<+R, +E> = Success(value: R) | Failure(error: E)
}
