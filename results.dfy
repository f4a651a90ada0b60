/** Failure-carrying wrappers used by the decoder and the metadata lookup. */
module Results {

  /** A value that may be absent, as Python's `None`. */
  datatype Option<+T> = None | Some(value: T)

  /** The outcome of an operation that either produces a value or reports why it could not. */
  datatype Result<+R, +E> = Success(value: R) | Failure(error: E)
}
