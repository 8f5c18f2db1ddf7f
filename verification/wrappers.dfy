/** Optional values and success-or-error results, used for the nullable columns
    and for the error replies of the endpoints. */
module Wrappers {

  /** A nullable value: `None` plays the part of Python's `None`. */
  datatype Option<+T> = None | Some(value: T)

  /** The outcome of an endpoint: a value, or the error it raises instead. */
  datatype Result<+T, +E> = Success(value: T) | Failure(error: E)
}
