/** Failure-carrying values used by the session store model: an optional value
    and a result that is either a value or an error. */
module Results {

  /** A value that may be absent. */
  datatype Option<+T> = None | Some(value: T)

  /** Either a computed value or the reason the computation failed. */
  datatype Result<+T, +E> = Ok(value: T) | Err(error: E)
}
