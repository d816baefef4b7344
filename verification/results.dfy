/** Optional values and results with an error, used for the source's
    `Option` fields and for its panicking error paths. */
module Results {

  datatype Option<+T> = None | Some(value: T)

  datatype Result<+T, +E> = Success(value: T) | Failure(error: E)
}
