/** Small failure-carrying datatypes shared by the other modules. */
module Wrappers {

  /** A value that may be absent. */
  datatype Option<T> = None | Some(value: T)

  /** How an awaited promise settles: with a value, or by rejecting (the
      handler does not look at the rejection reason, it only logs it). */
  datatype Settled<T> = Resolved(value: T) | Rejected
}
