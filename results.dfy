/** Failure-carrying results used where the translator reports an error instead of a value. */
module Results {

  datatype Option<+T> = None | Some(value: T)

  /** A construction that either yields a value or fails with a message (a thrown `Error`). */
  datatype Result<+T> = Success(value: T) | Failure(error: string)
}
