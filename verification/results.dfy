/** Optional values and success/failure results, the shapes Go expresses as
    a value paired with an `error`. */
module Results {

  /** A value that may be absent. */
  datatype Option<+T> = None | Some(value: T)

  /** Either a value or an error, as returned by `(T, error)` in Go. */
  datatype Result<+T, +E> = Ok(value: T) | Err(error: E)
}
