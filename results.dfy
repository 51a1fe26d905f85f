/** The error-or-value shape shared by the registry operations: Go returns a
    value together with an `error`, which is modelled as one or the other. */
module Results {
  datatype Result<T> = Ok(value: T) | Err(msg: string)
}
