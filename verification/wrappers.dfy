/** Failure-carrying result types shared by every module of the model. */
module Wrappers {

  /** A value that may be absent: the model of a null pointer or an empty heap top. */
  datatype Option<+T> = None | Some(value: T)

  /** Either a value or the error an operation reports (a thrown exception in the source). */
  datatype Result<+T, +E> = Success(value: T) | Failure(error: E)
}
