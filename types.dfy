/**
 * Rust's Option and Result, the two failure-carrying types the server's code
 * returns, and the clock reading every timestamp is made of.
 */
module Types {

  datatype Option<+T> = None | Some(value: T)

  datatype Result<+T, +E> = Ok(value: T) | Err(error: E)

  /**
   * A reading of `Utc::now()`, in whole seconds since the Unix epoch: the
   * `DateTime<Utc>` stamps of the tables and the `exp` of a token alike.
   */
  type Time = nat
}
