/** Outcomes of the modelled operations: an optional value, and the Python
    exceptions the modelled code raises, carried as a result value. */
module Results {

  datatype Option<+T> = None | Some(value: T)

  /** The exceptions the modelled Python code can raise. */
  datatype Error =
    | KeyError(key: string)   // a missing column label
    | IndexError              // a list or positional index out of range
    | ValueError              // a text cell that does not parse as a number
    | TypeError               // an operation applied to a value of the wrong kind

  datatype Result<+T> = Ok(value: T) | Err(error: Error)
}
