/** Optional values and results with an error, used where the application either has a value
    or raises (a missing key, an index out of range). */
module Results {

  datatype Option<+T> = None | Some(value: T)

  datatype Result<+T, +E> = Success(value: T) | Failure(error: E)
}
