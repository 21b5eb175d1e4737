/** Failure-carrying values shared by every module of the model. */
module Results {

  /** Python's "a value or None". */
  datatype Option<+T> = None | Some(value: T)

  /** The outcome of a step that may raise: `Err` carries the text that
      Python 2's `error.message` holds for the raised exception. */
  datatype Result<+T> = Ok(value: T) | Err(message: string)

  /** How an external process call ended: it returned, or it raised and
      the exception printed as `message`. */
  datatype Run = Completed | Crashed(message: string)
}
