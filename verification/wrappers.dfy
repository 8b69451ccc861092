/** Failure-carrying result types shared by every stage of the calculator.
    `Result` stands for Rust's `Result<T, Error>`, `Outcome` for `Result<(), Error>`. */
module Wrappers {

  datatype Option<+T> = None | Some(value: T)

  datatype Result<+T, +E> = Success(value: T) | Failure(error: E)

  datatype Outcome<+E> = Pass | Fail(error: E)
}
