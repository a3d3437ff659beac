/** Option and Result, the two failure-carrying shapes the Rust core uses
    (`Option<T>` and `anyhow::Result<T>`, the latter with a tagged error). */
module Wrappers {

  datatype Option<+T> = None | Some(value: T)

  datatype Result<+T, +E> = Ok(value: T) | Err(error: E)
}
