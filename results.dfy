/** Optional values and results with an error message, the two ways the
    reader's Go code reports absence and failure (`nil` and `error`). */
module Results {
  datatype Option<T> = None | Some(value: T)

  datatype Result<T> = Ok(value: T) | Err(msg: string)
}
