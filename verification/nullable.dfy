/** Java references that may be null, and the exceptions a call may end
    with instead of returning. */
module Nulls {

  /** A value that may be missing, as a Java reference may be null. */
  datatype Nullable<T> = Null | Value(get: T)

  /** A Java String[]: the array and each of its elements may be null. */
  type StringArray = Nullable<seq<Nullable<string>>>

  /** The runtime exceptions the modelled code can throw. */
  datatype Failure = IndexOutOfBounds | NullPointer | UnsupportedOperation

  /** A result or the exception that replaced it. */
  datatype Outcome<T> = Success(value: T) | Thrown(failure: Failure)
}
