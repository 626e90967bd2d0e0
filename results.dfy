/** Success/failure results shared by every module of the model. */
module Results {

  /** A value or the error that prevented computing it. */
  datatype Result<+T, +E> = Ok(value: T) | Err(error: E)
}
