/**
 * Failure-carrying results for the identifier model. Every Java exception
 * that the identifier classes throw or let through becomes an `AcmeError`.
 */
module Errors {

  /** An optional value; `None` plays the part of a failed address lookup. */
  datatype Option<+T> = None | Some(value: T)

  /** The error taxonomy of the identifier classes. */
  datatype AcmeError =
    /** `requireNonNull` rejected a missing constructor argument; `name` is the key it reports. */
    | InvalidArgument(name: string)
    /** A parsed document declared a type other than the one the subclass expects. */
    | ProtocolMismatch(found: string)
    /** Text that the platform could not turn into an address. */
    | HostResolution(host: string)
    /** A value that breaks what the protocol layer expects (a missing field, a bad stored address). */
    | ProtocolEncoding(detail: string)

  /** Success with a value, or failure with an `AcmeError`; usable with `:-`. */
  datatype Result<+T> = Ok(value: T) | Err(error: AcmeError) {
    predicate IsFailure() {
      Err?
    }

    function PropagateFailure<U>(): Result<U>
      requires Err?
    {
      Err(error)
    }

    function Extract(): T
      requires Ok?
    {
      value
    }
  }
}
