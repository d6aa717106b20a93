/** Go's error conventions, shared by the key manager and the storage helpers.

    Go functions return a pair (value, error) where a nil error means success.
    Here a Go `error` is an `Error` carrying its message, an absent error is
    `None`, and a (value, error) pair is a `Result`.
 */
module GoErrors {

  /** An optional value; `Option<Error>` plays the role of a Go `error` that may be nil. */
  datatype Option<+T> = None | Some(value: T)

  /** A non-nil Go error, identified by the text its `Error()` method returns. */
  datatype Error = Error(message: string)

  /** The outcome of a Go call returning (value, error). */
  datatype Result<+T> = Ok(value: T) | Err(error: Error)

  /** `errors.Wrap(e, context)` of github.com/pkg/errors: the wrapped error's
      message is the context, a colon and a space, then the cause's message. */
  function Wrap(e: Error, context: string): Error
  {
    Error(context + ": " + e.message)
  }
}
