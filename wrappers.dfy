/** Option and Result datatypes, and the Python exceptions the modelled code raises. */
module Wrappers {

  /** Python's `Optional[T]`: `None` or a value. */
  datatype Option<+T> = None | Some(value: T)

  /** The outcome of a Python call: a returned value or a raised exception. */
  datatype Result<+R, +E> = Success(value: R) | Failure(error: E)

  /** The exceptions raised or propagated by the modelled functions, with their messages.
      `ApiError` stands for any exception raised by a provider's SDK call. */
  datatype Error =
    | ValueError(message: string)
    | TypeError(message: string)
    | ApiError(message: string)
}
