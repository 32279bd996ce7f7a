/** Option and Result: absent references (Java `null`) and operations that throw. */
module Wrappers {

  /** `None` stands where the Java code returns or holds `null`. */
  datatype Option<+T> = None | Some(value: T)

  /** `Failure` stands where the Java code throws an exception. */
  datatype Result<+T, +E> = Success(value: T) | Failure(error: E)
}
