/** Failure-carrying values used across the model: `Option` for Go's
    nil-or-value error returns, `Result` for a value-or-error pair. */
module Wrappers {

  datatype Option<+T> = None | Some(value: T)

  datatype Result<+R, +E> = Success(value: R) | Failure(error: E)

  /** The opaque error values that travel through the uploader. Only their
      identity matters to the model; the message is kept for readability. */
  datatype Error = Error(message: string)

  /** The error `cached.upload` returns when its context is cancelled. */
  const Aborted: Error := Error("upload aborted")
}
