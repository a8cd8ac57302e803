/** Success-or-error values standing for Python's raised exceptions. */
module Results {

  datatype Result<T, E> = Ok(value: T) | Err(error: E)

  datatype Outcome<E> = Pass | Fail(error: E)
}
