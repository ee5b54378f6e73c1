/** Optional values and success/error results, standing for Go's nil returns
    and `(value, error)` pairs. */
module Common {

  datatype Option<T> = None | Some(value: T)

  datatype Result<T, E> = Ok(value: T) | Err(error: E)
}
