/** Option and Result values for Python's `None` and raised exceptions. */
module Wrappers {

  datatype Option<+T> = None | Some(value: T)

  datatype Result<+R, +E> = Success(value: R) | Failure(error: E)

  /** The answer to a remote request, or the transport error (refused connection, time-out) the client raises instead. */
  datatype Call<+T> = Answered(answer: T) | TransportFailed
}
