/** Failure-carrying results shared by the model's modules. */
module Wrappers {

  /** An optional value; for files, `None` stands for a file that does not exist. */
  datatype Option<+T> = None | Some(value: T)

  /** Either a value or the reason the script stops with an exception. */
  datatype Result<+T, +E> = Success(value: T) | Failure(error: E)
}
