/** Failure-compatible wrappers shared by every component of the model. */
module Wrappers {

  /** PHP's nullable values (`?string`, `?int`, `?array`). */
  datatype Option<+T> = None | Some(value: T)

  /** The outcome of a PHP method that returns `void` but may throw. */
  datatype Outcome<+E> = Pass | Fail(error: E)
}

/**
 * The exceptions the core throws, as error tags. The two library exception
 * classes under src/Exception are empty subclasses; the other two are PHP's own.
 */
module Exceptions {

  datatype QuicError =
    | InvalidArgument             // \InvalidArgumentException (illegal state transition)
    | Runtime                     // \RuntimeException (wrong connection state)
    | InvalidConnectionState      // InvalidConnectionStateException (role violation)
    | QuicConnection              // QuicConnectionException (capacity exceeded)
}
