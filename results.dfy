/** Optional values and success-or-error results, used for the lookups that may find
    nothing and for the operations that may fail with an application error. */
module Results {

  datatype Option<+T> = None | Some(value: T)

  datatype Result<+T, +E> = Success(value: T) | Failure(error: E)
}
