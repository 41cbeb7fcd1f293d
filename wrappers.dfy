/** Option and Result values, and the kinds of exception the services throw. */
module Wrappers {

  /** A value that may be absent: `FirstOrDefault`, `FindAsync` and a nullable return. */
  datatype Option<+T> = None | Some(value: T)

  /**
   * The .NET exception types the services raise. A thrown exception becomes an `Err`
   * carrying its kind; the message text is not modelled.
   */
  datatype Failure =
    | ArgumentError        // System.ArgumentException
    | ArgumentNull         // System.ArgumentNullException
    | ArgumentOutOfRange   // System.ArgumentOutOfRangeException
    | KeyNotFound          // System.Collections.Generic.KeyNotFoundException
    | InvalidOperation     // System.InvalidOperationException
    | Unauthorized         // System.UnauthorizedAccessException
    | NotFound             // the NotFoundException the quiz and student services throw
    | NullReference        // dereferencing a navigation property whose row is missing
    | GeneralError         // a plain System.Exception
    | Concurrency          // an EF Core update of a row that is not in the table

  /** The outcome of an operation that either returns a value or throws. */
  datatype Result<+T> = Ok(value: T) | Err(error: Failure)
}
