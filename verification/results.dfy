/** Failure-carrying wrappers used across the model: Python functions that
    return False on failure become Option, and raised exceptions become Result. */
module Results {

  datatype Option<+T> = None | Some(value: T)

  datatype Result<+T, +E> = Success(value: T) | Failure(error: E)
}
