/** Failure-carrying result types shared by the two programs' models.
    C++ exceptions and aborting asserts become the failure cases. */
module Wrappers {

  datatype Option<+T> = None | Some(value: T)

  datatype Result<+T, +E> = Success(value: T) | Failure(error: E)

  datatype Outcome<+E> = Pass | Fail(error: E)
}
