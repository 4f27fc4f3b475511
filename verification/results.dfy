/**
  Failure-carrying values used throughout the model in place of Rust's
  `Result` and the unit-valued `Result<(), E>` returned by the Modbus layer.
 */
module Results {

  /** A decoded value or the reason it could not be produced. */
  datatype Result<+T, +E> = Ok(value: T) | Err(error: E)

  /** The outcome of a check that yields nothing on success. */
  datatype Outcome<+E> = Pass | Fail(error: E)

  datatype Option<+T> = None | Some(value: T)
}
