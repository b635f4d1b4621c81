/** Option and Result datatypes shared by the model. */
module Wrappers {

  /** A value that may be absent; None stands for a JSON null. */
  datatype Option<+T> = None | Some(value: T)

  /** The outcome of an operation that raises an exception in the script. */
  datatype Result<+T, +E> = Success(value: T) | Failure(error: E)
}
