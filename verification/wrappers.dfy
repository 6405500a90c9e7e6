/** Failure-carrying result types shared by the transport and the endpoint models. */
module Wrappers {

  /** An optional value: the source's "no entry" / "not present" cases. */
  datatype Option<+T> = None | Some(value: T)

  /** A value, or the error the source would have thrown or returned instead. */
  datatype Result<+R, +E> = Success(value: R) | Failure(error: E)
}
