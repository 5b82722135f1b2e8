/**
 * How an operation of the serializer ends. Every exception the library can
 * raise is one of three kinds; the model keeps the kind and drops the message.
 */
module Outcomes {
  /** The exception types the span operations and codecs throw. */
  datatype Error =
    | ArgumentOutOfRange   // ArgumentOutOfRangeException, also what a byte-span slice throws
    | Overflow             // OverflowException: a slice past the buffer, or a negative array size
    | IndexOutOfRange      // IndexOutOfRangeException: a destination index past its end

  /** A value, or the exception that was thrown instead. */
  datatype Result<T> = Ok(value: T) | Err(error: Error)

  /** Completion of an operation that returns nothing. */
  datatype Outcome = Pass | Fail(error: Error)
}
