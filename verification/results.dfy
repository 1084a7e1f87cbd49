/** Option and Result values, standing for Python's `None` and for a raised
    `ValueError` that carries its message. */
module Results {

  datatype Option<+T> = None | Some(value: T)

  /** Either a value, or the error the source raises instead. */
  datatype Result<+T, +E> = Ok(value: T) | Err(error: E)
}
