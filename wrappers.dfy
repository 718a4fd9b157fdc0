/** Small failure-carrying datatypes shared by the other modules. */
module Wrappers {

  /** A value that may be missing (Python's `None`). */
  datatype Option<+T> = None | Some(value: T)

  /** Either a value or the error (exception) an operation raises instead. */
  datatype Result<+R, +E> = Success(value: R) | Failure(error: E)
}
