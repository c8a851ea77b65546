/** Optional values, results and the Python exceptions the reviewsync core raises. */
module Wrappers {

  datatype Option<+T> = None | Some(value: T)

  /** The exception classes the modelled code raises, with the key or message it carries. */
  datatype Error =
    | ValueError(message: string)
    | KeyError(key: string)
    | TypeError(message: string)
    | AttributeError(name: string)

  /** A call that either returns a value or raises one of the exceptions above. */
  datatype Result<+T> = Success(value: T) | Failure(error: Error)
}
