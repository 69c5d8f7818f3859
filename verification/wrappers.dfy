/** Failure-carrying result types shared by the whole model. */
module Wrappers {

  /** Rust's `Option<T>`. */
  datatype Option<+T> = None | Some(value: T)

  /** Rust's `Result<T, String>`; a panic is modelled as a `Failure` carrying the panic message. */
  datatype Result<+T, +E> = Success(value: T) | Failure(error: E)
}
