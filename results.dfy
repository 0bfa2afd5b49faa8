/** Failure-carrying results: the model's stand-in for the scripts' `sys.exit`
    calls and `ValidationError` exceptions. */
module Results {

  datatype Option<+T> = None | Some(value: T)

  /** A computation that either yields a value or stops with an error. */
  datatype Result<+T, +E> = Success(value: T) | Failure(error: E)

  /** A check that either passes or stops with an error. */
  datatype Outcome<+E> = Pass | Fail(error: E)
}
