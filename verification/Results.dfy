/** Outcomes of operations that may raise. */
module Results {
  datatype Option<+T> = None | Some(value: T)

  /** The value an operation returns, or the text of the error it raises. */
  datatype Result<+T> = Success(value: T) | Failure(error: string)
}
