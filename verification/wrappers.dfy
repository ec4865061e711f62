/** `Option` and `Result`, shared by the other modules. */
module Wrappers {

  /** An optional value: `None` stands for a missing key or a failed match. */
  datatype Option<+T> = None | Some(value: T)

  /** Either a value or the error that was raised instead. */
  datatype Result<+R, +E> = Success(value: R) | Failure(error: E)
}
