/** How the modelled operations report the exceptions the Java code throws:
  * a result is either a value or the exception, with its class and message. */
module Outcomes {
  datatype Exception =
    | IllegalArgument(message: string)
    | IllegalState(message: string)
    | Writer(message: string)
    | IndexOutOfBounds(message: string)
    | Arithmetic(message: string)

  datatype Result<T> = Success(value: T) | Failure(error: Exception)

  /** A Java reference that may be null. */
  datatype Option<T> = None | Some(value: T)
}
