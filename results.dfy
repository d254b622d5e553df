/** Option and Result values, used in place of Python's `None` returns and
    raised exceptions. */
module Results {

  datatype Option<+T> = None | Some(value: T)

  /** `Err` carries the text that `str(e)` gives for the raised exception. */
  datatype Result<+T> = Ok(value: T) | Err(message: string)
}
