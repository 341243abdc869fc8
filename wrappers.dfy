/** The optional value the Java code expresses with `null`, and the exceptions it can raise. */
module Wrappers {
  datatype Option<+T> = None | Some(value: T)

  /** The runtime exceptions the modelled code can raise. */
  datatype Exception = NullPointer | IndexOutOfBounds

  /** A call that either returns a value or raises an exception. */
  datatype Outcome<+T> = Returns(value: T) | Throws(error: Exception)
}
