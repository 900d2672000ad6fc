/** Failure-compatible wrappers shared by every stage: a missing cell (pandas NaN) is `None`,
    an operation that raises is `Err`. */
module Common {

  datatype Option<+T> = None | Some(value: T)

  datatype Result<+T, +E> = Ok(value: T) | Err(error: E)
}
