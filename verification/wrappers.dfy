/** Failure-compatible wrappers shared by the three containers.

    `Option` stands for a nullable Java reference, `Result` for a call that either
    returns a value or throws one of the exceptions the containers raise.
 */
module Wrappers {

  /** A nullable reference: `None` is Java's `null`. */
  datatype Option<+T> = None | Some(value: T)

  /** The exceptions the containers throw. */
  datatype Error =
    | IllegalArgument   // java.lang.IllegalArgumentException
    | NoSuchElement     // java.util.NoSuchElementException

  /** The outcome of a call: its return value, or the exception it throws. */
  datatype Result<+R> = Ok(value: R) | Err(error: Error)
}
