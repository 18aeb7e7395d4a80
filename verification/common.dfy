/** Failure-compatible wrappers used throughout the model: `Option` for the
    Python `None`-or-value results, `Result` for runs that end in an uncaught
    exception. */
module Common {

  datatype Option<+T> = None | Some(value: T)

  datatype Result<+T, +E> = Ok(value: T) | Err(error: E)
}
