/** Optional values and results, used to keep "no label" (an Option) apart from
    a failure that aborts processing (a Result). */
module Wrappers {

  /** A value that may be absent: a missing JSON key, a null, or a lookup that found nothing. */
  datatype Option<+T> = None | Some(value: T)

  /** Either a value or the error that the computation raised. */
  datatype Result<+T, +E> = Success(value: T) | Failure(error: E)

  /** Completion of an operation that changes state and returns nothing else. */
  datatype Outcome<+E> = Pass | Fail(error: E)
}
