/** Failure results of the selection routines.
    The source raises a `ValueError` for every failure; the model keeps only the
    kind of failure, not the message text. */
module Outcomes {

  /** Why a call failed. */
  datatype Error =
    | EmptyInput   // the list has no elements
    | OutOfRange   // a zero-based rank outside [0, n)
    | InvalidRank  // a one-based rank outside [1, n]

  /** Either a value or the reason there is none. */
  datatype Result<T> = Ok(value: T) | Err(error: Error)
}
