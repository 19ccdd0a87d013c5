/** Failure-carrying return values shared by the simulators. */
module Results {

  /** An optional value. */
  datatype Option<+T> = None | Some(value: T)

  /** Either a value or the error that stopped the computation. */
  datatype Result<+T, +E> = Ok(value: T) | Err(error: E)
}
