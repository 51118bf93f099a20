/** Failure-carrying wrappers: `Option` stands for the source's nullable
    references, `Result` for an operation that either produces a value or
    stops with an error (a user notice or an exception in the C# code). */
module Outcomes {

  datatype Option<+T> = None | Some(value: T)

  datatype Result<+T, +E> = Success(value: T) | Failure(error: E)
}
