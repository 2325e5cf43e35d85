/** Optional values, results and the Java exceptions the modelled code can raise. */
module Wrappers {

  /** A Java reference that may be null. */
  datatype Option<+T> = None | Some(value: T)

  /** The outcome of an operation that either returns a value or throws. */
  datatype Result<+T, +E> = Success(value: T) | Failure(error: E)

  /** The outcome of a void operation: it completes or throws. */
  datatype Outcome<+E> = Pass | Fail(error: E)

  /**
   * The exceptions raised by the modelled code, by Java class. Messages are
   * reduced to a short tag saying which check failed.
   */
  datatype Error =
    | IllegalArgument(what: string)   // IllegalArgumentException
    | IndexOutOfBounds                // StringIndexOutOfBoundsException
    | NumberFormat                    // NumberFormatException from Integer.parseInt
    | Runtime(what: string)           // a plain RuntimeException
    | DateTimeParse                   // DateTimeParseException from LocalTime.parse
}
