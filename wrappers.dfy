/** Option and Result, the two failure-carrying datatypes the model uses for
    Rust's `Option<T>` and `Result<T, String>`. */
module Wrappers {

  datatype Option<T> = None | Some(value: T)

  /** Rust's `Result<T, String>`: the error text itself is not modelled, only
      the kind of failure, so errors carry a small enumeration `E`. */
  datatype Result<T, E> = Ok(value: T) | Err(error: E)
}
