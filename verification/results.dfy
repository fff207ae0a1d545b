/** Success/failure values used wherever the generator returns `(value, error)`. */
module Results {

  datatype Result<+T, +E> = Ok(value: T) | Err(error: E)
}
