/** Optional values and results with the Java exceptions the library throws. */
module Wrappers {

  /** A value that may be absent, standing for a Java reference that may be null. */
  datatype Option<T> = None | Some(value: T)

  /** The exceptions the modelled code raises on its error paths. */
  datatype Failure =
    | UnsupportedOperation   // java.lang.UnsupportedOperationException
    | ArithmeticError        // java.lang.ArithmeticException (division by zero)
    | IndexOutOfBounds       // java.lang.IndexOutOfBoundsException
    | NullPointer            // java.lang.NullPointerException
    | IllegalArgument        // java.lang.IllegalArgumentException
    | StackOverflow          // java.lang.StackOverflowError (unbounded recursion)
    | ValueError             // Python ValueError
    | IndexError             // Python IndexError

  /** Either a normal result or the exception that ended the call. */
  datatype Result<T> = Ok(value: T) | Err(error: Failure)
}
