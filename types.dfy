/** Optional values and results with an error, as the script's None and exceptions. */
module Types {

  /** Python's None (absent) or a value. */
  datatype Option<T> = None | Some(value: T)

  /** A value, or the error the script would raise instead of returning. */
  datatype Result<T, E> = Ok(value: T) | Err(error: E)
}
