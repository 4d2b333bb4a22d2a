/** Optional values (C# `null`), results with an error case (a thrown
    exception) and pass/fail outcomes, shared by the other modules. */
module Wrappers {

  /** A value that may be absent: `None` stands for C#'s `null`. */
  datatype Option<+T> = None | Some(value: T)

  /** The result of an operation that either returns a value or throws. */
  datatype Result<+T, +E> = Success(value: T) | Failure(error: E)

  /** The result of an operation that returns nothing or throws. */
  datatype Outcome<+E> = Pass | Fail(error: E)
}
