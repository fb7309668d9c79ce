/** Optional values and success-or-error results, used wherever the manager returns null or
    stops with an error instead of producing a value. */
module Results {

  datatype Option<+T> = None | Some(value: T)

  datatype Result<+T, +E> = Success(value: T) | Failure(error: E)
}
