/** Option and Result, used for nullable references and for the exceptions the repository raises. */
module Wrappers {

  /** A value that may be absent: a C# reference that may be null. */
  datatype Option<+T> = None | Some(value: T)

  /** The result of a call that either returns a value or raises an exception. */
  datatype Result<+T, +E> = Success(value: T) | Failure(error: E)
}
