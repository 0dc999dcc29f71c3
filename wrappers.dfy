/** Option, Result and Outcome: the shapes of Rust's `Option<T>`, `Result<T, E>`
    and `io::Result<()>` used across the model. */
module Wrappers {

  datatype Option<+T> = None | Some(value: T)

  datatype Result<+T, +E> = Success(value: T) | Failure(error: E)

  /** The result of an operation that yields nothing but may fail (`Result<(), E>`). */
  datatype Outcome<+E> = Pass | Fail(error: E)
}
