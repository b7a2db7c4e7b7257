/** Values that may be absent and operations that may fail. */
module Optional {

  /** A Java reference that may be null: `None` stands for `null`. */
  datatype Option<+T> = None | Some(value: T)

  /** The value an operation produces, or the error it raises. */
  datatype Result<+T, +E> = Ok(value: T) | Err(error: E)
}
