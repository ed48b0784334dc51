/** Option and Result, the two failure-carrying wrappers used throughout the model. */
module Wrappers {

  /** `None` stands for JavaScript's `undefined` where the source returns it. */
  datatype Option<+T> = None | Some(value: T)

  /** `Failure` stands for an exception the source throws (or lets escape). */
  datatype Result<+R, +E> = Success(value: R) | Failure(error: E)
}
