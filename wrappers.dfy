/** Option and Result values standing for Java's `null` and thrown exceptions. */
module Wrappers {

  /** `None` models a Java `null` reference. */
  datatype Option<T> = None | Some(value: T)

  /** `Failure` models an exception that escapes the modelled method. */
  datatype Result<T, E> = Success(value: T) | Failure(error: E)
}
