/** Option and Result, the two failure-carrying shapes the threading code passes around. */
module Wrappers {

  /** Rust's `Option<T>`. */
  datatype Option<+T> = None | Some(value: T)

  /** Rust's `anyhow::Result<T>`. The only error the threading code can raise is a
      timestamp that does not parse, so the error carries no payload. */
  datatype Result<+T> = Ok(value: T) | Err
}
