/** Optional values and success-or-failure results, used for JavaScript's NaN-or-number
    returns and for the colour constructor's throw-or-return behaviour. */
module Results {

  /** A value that may be absent. */
  datatype Option<+T> = None | Some(value: T)

  /** The outcome of an operation that either returns a value or throws an error. */
  datatype Result<+T, +E> = Ok(value: T) | Err(error: E)
}
