/** Failure-carrying datatypes shared by the strategies. */
module Results {

  /** A value that may be absent. */
  datatype Option<+T> = None | Some(value: T)

  /** Either the value an operation produced or the reason it stopped. */
  datatype Result<+T, +E> = Success(value: T) | Failure(error: E)
}
