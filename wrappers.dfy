/** Option and Result, the stand-ins for C#'s null results and thrown exceptions. */
module Wrappers {

  /** A value or nothing: `None` plays the part of a null / default reference. */
  datatype Option<+T> = None | Some(value: T)

  /** A value or the error a C# method would have thrown. */
  datatype Result<+T, +E> = Success(value: T) | Failure(error: E)
}
