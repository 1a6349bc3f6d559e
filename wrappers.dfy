/** How the model reports what the C# code signals with null or with an exception. */
module Wrappers {

  /** A lookup that may find nothing (C#'s null). */
  datatype Option<+T> = None | Some(value: T)

  /** An operation that returns a value or throws. */
  datatype Result<+T, +E> = Success(value: T) | Failure(error: E)

  /** An operation that returns nothing or throws. */
  datatype Outcome<+E> = Pass | Fail(error: E)
}
