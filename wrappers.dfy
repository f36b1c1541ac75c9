/** Option, Result and Outcome for the engine's null values and exceptions. */
module Wrappers {

  /** A value that may be absent (a Java `null`). */
  datatype Option<+T> = None | Some(value: T)

  /** The Java exceptions the modelled code can raise. */
  datatype Exception =
    | NoSuchElement      // java.util.NoSuchElementException
    | IndexOutOfBounds   // IndexOutOfBoundsException / ArrayIndexOutOfBoundsException
    | NullPointer        // NullPointerException
    | ParseError         // java.text.ParseException
    | IllegalArgument    // IllegalArgumentException
    | Assertion          // a failed `assert` (a NullPointerException when assertions are off)

  /** The result of an operation that returns a value or throws. */
  datatype Result<+T> = Ok(value: T) | Err(error: Exception)

  /** The result of an operation that returns nothing or throws. */
  datatype Outcome = Pass | Fail(error: Exception)
}
