/** Option and Result types shared by the other modules. */
module Wrappers {

  /** A value that may be absent; Python's `None` return. */
  datatype Option<+T> = None | Some(value: T)

  /** Either a successful value or an error; the routes' JSON reply or error reply. */
  datatype Result<+T, +E> = Success(value: T) | Failure(error: E)
}
