/** Optional values (a Java reference that may be null) and results of code that may throw. */
module Wrappers {

  /** A Java reference that may be null: `None` stands for null. */
  datatype Option<+T> = None | Some(value: T)

  /** The unchecked Java exceptions the modelled code can raise. None of them is caught
      by the modelled code, so each one aborts the whole operation that raised it. */
  datatype Exception =
    | NumberFormat      // Integer.parseInt on text that is not a 32-bit integer
    | IndexOutOfBounds  // an array or list index past the end
    | NullPointer       // a method called on a null reference
    | Arithmetic        // an integer division by zero

  /** The outcome of an operation that either returns a value or throws. */
  datatype Result<+T> = Success(value: T) | Failure(error: Exception)
}
