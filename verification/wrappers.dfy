/** `Option` and `Result`, shared by the rest of the model. */
module Wrappers {

  /** An optional value: a C pointer that may be null, or a decoding that may fail. */
  datatype Option<+T> = None | Some(value: T)

  /** A Java call that either returns a value or throws an exception. */
  datatype Result<+R, +E> = Success(value: R) | Failure(error: E)
}
