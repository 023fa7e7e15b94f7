/** Option and Result values standing in for the source's nullable references and exceptions. */
module Wrappers {

  datatype Option<+T> = None | Some(value: T)

  /** The exceptions the modelled code can throw. */
  datatype Exception =
    | ArgumentException
    | ArgumentOutOfRangeException
    | IndexOutOfRangeException
    | OverflowException

  datatype Result<+T> = Success(value: T) | Failure(error: Exception)
}
