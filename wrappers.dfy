/** Option and Result, the shapes the engine's Rust code returns. */
module Wrappers {

  datatype Option<T> = None | Some(value: T)

  /** How an operation can fail. `IoError` is an `Err` the Rust code returns
      (a failed or short file read); `Panic` marks a place where the Rust code
      aborts (an `unwrap` of `None`, a `Buf` read past the end) on bytes that
      came from a file, so the caller cannot rule it out in advance;
      `Tainted` is the error a fused iterator reports once its inner iterator
      has failed. */
  datatype Error = IoError | Panic | Tainted

  datatype Result<T> = Ok(value: T) | Err(error: Error)

  /** `Ok(())` or an error, for the iterator `next` calls. */
  datatype Outcome = Pass | Fail(error: Error)
}
