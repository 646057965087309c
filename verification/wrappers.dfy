/** Option and Result datatypes standing for C# `null` and thrown exceptions. */
module Wrappers {

  /** A value that may be absent; `None` stands for a C# `null` reference. */
  datatype Option<+T> = None | Some(value: T)

  /** The result of an operation that can fail instead of returning a value. */
  datatype Result<+T, +E> = Success(value: T) | Failure(error: E)
}
