/** Nullable values and thrown exceptions, made explicit. */
module Outcomes {

  /** A Java reference that may be null (or an `Optional`). */
  datatype Option<+T> = None | Some(value: T)

  /** The exception classes the modelled code throws. */
  datatype Failure =
    | IllegalArgument   // IllegalArgumentException (also what TaskConverter wraps everything into)
    | NumberFormat      // NumberFormatException from Integer.parseInt / Long.parseLong
    | DateTimeParse     // DateTimeParseException from LocalDateTime.parse
    | TaskIntersection  // exception.TaskIntersectionException
    | NullPointer       // NullPointerException from dereferencing a missing map entry
    | Arithmetic        // ArithmeticException from Math.multiplyExact inside Duration.ofMinutes

  /** Either the value a Java method returns, or the exception it throws. */
  datatype Result<+T> = Ok(value: T) | Err(failure: Failure)
}
