/** Failure-carrying wrappers shared by the codec and the UUID layer. */
module Wrappers {

  /** A value that may be absent; also used for Go's `error`, where `None` is `nil`. */
  datatype Option<+T> = None | Some(value: T)

  /** The outcome of an operation that either yields a value or fails with an error. */
  datatype Result<+R, +E> = Success(value: R) | Failure(error: E)
}
