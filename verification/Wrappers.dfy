/** The two failure-compatible datatypes shared by the models. */
module Wrappers {

  datatype Option<+T> = None | Some(value: T)

  /** A call either yields a value or ends with the error the source throws. */
  datatype Result<+T, +E> = Success(value: T) | Failure(error: E)
}
