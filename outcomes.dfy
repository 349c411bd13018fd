/** The exceptions the library throws, as values. Every operation that can
    throw in the Java code returns a Result instead. */
module Outcomes {

  /** One constructor per exception class the core can raise; the message is
      the one the code passes to the exception, where it passes one. */
  datatype Error =
    | ArithmeticError(message: string)   // java.lang.ArithmeticException
    | IllegalArgument(message: string)   // java.lang.IllegalArgumentException
    | NumberFormat                       // java.lang.NumberFormatException
    | IndexOutOfBounds                   // java.lang.ArrayIndexOutOfBoundsException
    | NegativeArraySize                  // java.lang.NegativeArraySizeException

  datatype Result<T> = Ok(value: T) | Err(error: Error)
}
