/** Option and Result values shared by the client and server models. */
module Wrappers {

  /** `None` stands for JavaScript's `null`/`undefined` or a failed lookup. */
  datatype Option<+T> = None | Some(value: T)

  /** The outcome of a request handler: a value, or the error it throws. */
  datatype Result<+R, +E> = Success(value: R) | Failure(error: E)
}
