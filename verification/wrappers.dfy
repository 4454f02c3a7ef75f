/** Option and Result: the two failure-carrying shapes the command-line tool
    threads through its query and resolution steps. */
module Wrappers {

  /** An optional value, the counterpart of Rust's `Option<T>`. */
  datatype Option<+T> = None | Some(value: T)

  /** A value or an error, the counterpart of `anyhow::Result<T>`. */
  datatype Result<+R, +E> = Success(value: R) | Failure(error: E)
}
