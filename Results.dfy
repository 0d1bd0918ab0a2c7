/** The outcome of a step that can fail, as the relay's thrown errors are modelled. */
module Results {
  datatype Result<T, E> = Ok(value: T) | Err(error: E)
}
