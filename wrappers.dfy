/** The `Option` and `Result` datatypes shared by the modules. */
module Wrappers {

  datatype Option<+T> = None | Some(value: T)

  /** The outcome of an operation that the Kotlin code ends by throwing. */
  datatype Result<+T, +E> = Ok(value: T) | Err(error: E)
}
