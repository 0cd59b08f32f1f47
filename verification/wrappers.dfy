/** Option and Result values used wherever the load balancer returns "maybe" or "error". */
module Wrappers {

  datatype Option<+T> = None | Some(value: T)

  /** A value or an error, in the shape of Rust's `Result<T, E>`. */
  datatype Result<+T, +E> = Success(value: T) | Failure(error: E)
}
