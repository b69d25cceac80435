/** Optional values, the exceptions the core throws, and results that carry them. */
module Wrappers {

  /** A Java reference that may be null. */
  datatype Option<+T> = None | Some(value: T) {
    /** The value, or `default` when absent (Java's `x == null ? default : x`). */
    function GetOr(default: T): T {
      if Some? then value else default
    }
  }

  /** The exception classes thrown by the core. */
  datatype ErrorKind =
    | IllegalArgument  // IllegalArgumentException: validation failures and duplicate preset text
    | PresetNotFound   // PresetNotFoundExecption
    | TicketNotFound   // TicketNotFoundException

  /** A thrown exception: its class and its message. */
  datatype Error = Error(kind: ErrorKind, message: string)

  /** `new IllegalArgumentException(message)`. */
  function Invalid(message: string): Error {
    Error(IllegalArgument, message)
  }

  /** The outcome of a Java method that returns a value or throws. */
  datatype Result<+T> = Ok(value: T) | Err(error: Error)

  /** The outcome of a `void` Java method that may throw. */
  datatype Outcome = Pass | Fail(error: Error)
}
