/** Optional values and outcomes that can fail. */
module Results {

  datatype Option<+T> = None | Some(value: T)

  datatype Outcome<+T, +E> = Ok(value: T) | Error(error: E)
}
