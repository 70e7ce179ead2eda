/** Option and Result types shared by the two helper classes. */
module Wrappers {

  /** A value that may be absent; PHP's `null` return. */
  datatype Option<+T> = None | Some(value: T)

  /** The exceptions the helpers throw. */
  datatype Exception = BadMethodCallException

  /** A PHP call that either returns a value or throws. */
  datatype Result<+T> = Ok(value: T) | Err(exception: Exception)
}
