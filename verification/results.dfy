/** Failure-carrying values used throughout the model: an optional value and
    a value-or-error. */
module Results {

  datatype Option<+T> = None | Some(value: T)

  datatype Result<+R, +E> = Success(value: R) | Failure(error: E)
}
