/** Error-carrying return types used wherever the modelled code throws. */
module Results {

  /** A computation that either yields a value or fails with an error. */
  datatype Result<+T, +E> = Ok(value: T) | Err(error: E)

  /** A check that either passes or fails with an error. */
  datatype Outcome<+E> = Pass | Fail(error: E)

  /** An optional value, standing for a nullable reference. */
  datatype Option<+T> = None | Some(value: T)
}
