/** Optional values and success/failure results, used where the scripts
    return `None`/`-1` or raise. */
module Results {

  datatype Option<+T> = None | Some(value: T)

  datatype Result<+T, +E> = Success(value: T) | Failure(error: E)
}
