/** Failure-compatible result type and the Java exceptions the speechlet can raise. */
module Outcomes {

  /** The exceptions that escape the speechlet's handlers, by Java class. */
  datatype Exception =
    | SpeechletException(message: string)  // thrown explicitly for an unknown intent
    | NumberFormatException                // Integer.parseInt on a null or malformed slot value
    | NullPointerException                 // a missing slot, or an operator keyword the table lacks
    | ArithmeticException                  // integer division by zero

  /** Either a value or the exception that was thrown instead; usable with `:-`. */
  datatype Result<+T> = Success(value: T) | Failure(error: Exception) {

    predicate IsFailure() {
      Failure?
    }

    function PropagateFailure<U>(): Result<U>
      requires Failure?
    {
      Failure(error)
    }

    function Extract(): T
      requires Success?
    {
      value
    }
  }

  datatype Option<+T> = None | Some(value: T)
}
