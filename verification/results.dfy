/** Failure-carrying datatypes used in place of .NET exceptions and `out` parameters. */
module Results {

  /** The value of a `TryParse`-style call: `None` when parsing failed. */
  datatype Option<+T> = None | Some(value: T)

  /** The outcome of a constructor that may throw: `Err` carries what it threw. */
  datatype Result<+T, +E> = Ok(value: T) | Err(error: E)
}
