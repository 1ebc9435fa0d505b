/** Option and Result, used for Python's `None`-able lookups and for the
    exceptions that abort a run. */
module Results {

  datatype Option<+T> = None | Some(value: T)

  datatype Result<+T, +E> = Ok(value: T) | Err(error: E)
}
