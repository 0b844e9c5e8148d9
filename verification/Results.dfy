/** Failure-compatible results shared by every module of the model. */
module Results {

  datatype Option<+T> = None | Some(value: T)

  /** The outcome of a Go function that returns `(T, error)`. */
  datatype Result<+T, +E> = Ok(value: T) | Err(error: E)
}
