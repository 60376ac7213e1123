/** Failure-carrying values shared by every module of the model.
    `Option` stands for Python's `None`-or-value returns and `Result`
    for a value or the exception the source raises instead. */
module Results {

  datatype Option<+T> = None | Some(value: T)

  /** `Err` carries the message of the exception the source raises. */
  datatype Result<+T> = Ok(value: T) | Err(message: string)
}
