/** Option and Result, used where the Java source works with `null` or throws. */
module Wrappers {

  /** A Java reference that may be `null`: `None` stands for `null`. */
  datatype Option<+T> = None | Some(value: T)

  /** The outcome of an operation that may throw: `Failure` carries the exception. */
  datatype Result<+R, +E> = Success(value: R) | Failure(error: E)
}
