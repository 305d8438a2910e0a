/** Failure-carrying return types used where the modelled code throws. */
module Results {

  /** A value that may be absent. */
  datatype Option<+T> = None | Some(value: T)

  /** Either a value or the error the modelled code would have raised. */
  datatype Result<+T, +E> = Success(value: T) | Failure(error: E)
}
