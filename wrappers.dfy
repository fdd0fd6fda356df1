/** Small failure-compatible wrappers shared by the model.

    `Option` doubles as a Java reference that may be `null`: `None` is `null`,
    `Some(v)` is a reference to `v`. */
module Wrappers {

  datatype Option<+T> = None | Some(value: T)

  /** The result of a Java call that returns a value or throws. */
  datatype Result<+T, +E> = Success(value: T) | Failure(error: E)

  /** The result of a Java call that returns normally (possibly `this`, for
      chaining) or throws. */
  datatype Outcome<+E> = Pass | Fail(error: E)
}

/** The Java exceptions the modelled code throws, by class. */
module Exceptions {

  datatype Exception =
    | IllegalArgument       // java.lang.IllegalArgumentException
    | IllegalState          // java.lang.IllegalStateException
    | IndexOutOfBounds      // java.lang.IndexOutOfBoundsException
    | NullPointer           // java.lang.NullPointerException
    | UnsupportedOperation  // java.lang.UnsupportedOperationException
}
