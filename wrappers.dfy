/** Failure-carrying results for the operations of the ULID core. */
module Wrappers {

  /** The exceptions the core raises, by .NET type and the parameter it names. */
  datatype Error =
    | ArgumentError(param: string)           // System.ArgumentException
    | ArgumentOutOfRangeError(param: string) // System.ArgumentOutOfRangeException
    | IndexOutOfRangeError                   // System.IndexOutOfRangeException

  datatype Option<+T> = None | Some(value: T)

  /** A call that either returns a value or throws one of the errors above. */
  datatype Result<+T> = Success(value: T) | Failure(error: Error)
}
