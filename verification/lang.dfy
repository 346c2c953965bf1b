/**
 Java-level vocabulary shared by every module: references that may be null,
 values-or-exceptions, and the exception kinds the library throws.
 */
module Lang {

  /** A Java reference: either `null` or a value. */
  datatype Nullable<+T> = Null | NonNull(value: T)

  /** A computation that either returns a value or throws. */
  datatype Result<+T, +E> = Success(value: T) | Failure(error: E)

  /** A computation that returns nothing or throws. */
  datatype Outcome<+E> = Pass | Fail(error: E)

  /** The Java exceptions that this library raises or lets through. */
  datatype Exception =
    | NullPointer(detail: Nullable<string>)
    | IllegalArgument(message: string)
    | IllegalState(message: string)
    | NumberFormat(input: string)
    | IndexOutOfBounds(index: int)
    | Runtime(message: string, cause: Nullable<Exception>)

  /** A Java `int` value. */
  predicate IsInt32(n: int)
  {
    -0x8000_0000 <= n < 0x8000_0000
  }
}
