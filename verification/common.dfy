/** Failure-carrying values shared by every module: Go's `(value, ok)` and
    `(value, error)` returns become `Option` and `Result`. */
module Common {

  datatype Option<+T> = None | Some(value: T)

  datatype Result<+T, +E> = Ok(value: T) | Err(error: E)
}
