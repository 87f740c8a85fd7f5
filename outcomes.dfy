/** Values that may be absent (Java's null) and results of calls that may throw. */
module Outcomes {

  /** A Java reference that may be null. */
  datatype Option<+T> = None | Some(value: T)

  /** The Java exceptions that the storage layer throws. */
  datatype Exception =
    | NullPointer           // unboxing a missing column value
    | IllegalArgument       // a date that is not normalized
    | UnsupportedOperation  // a URI the provider does not know
    | Runtime               // an operation the provider does not implement

  /** The result of a Java call: either it returned a value or it threw. */
  datatype Outcome<+T> = Returned(value: T) | Threw(error: Exception)
}
