/** The Option, Result and Outcome datatypes shared by the modules of the bridge model. */
module Results {

  /** A value that may be absent: the framer's "maybe a telegram". */
  datatype Option<+T> = None | Some(value: T)

  /** The outcome of an operation that produces a value or reports an error. */
  datatype Result<+R, +E> = Success(value: R) | Failure(error: E)

  /** The outcome of an operation that only reports whether it failed. */
  datatype Outcome<+E> = Pass | Fail(error: E)
}
