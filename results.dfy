/** Optional values and outcomes that may carry an error message. */
module Results {

  /** A value that may be absent (JavaScript's `undefined`). */
  datatype Option<+T> = None | Some(value: T)

  /** The outcome of an operation that may throw; `Err` carries the error's message. */
  datatype Result<+T> = Ok(value: T) | Err(message: string)
}
