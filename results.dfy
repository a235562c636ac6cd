/** Optional values and success-or-error outcomes shared by the whole model. */
module Results {

  /** An optional value: Python's `None` or a present value. */
  datatype Option<+T> = None | Some(value: T)

  /** The outcome of a handler: a value, or the error the handler raises. */
  datatype Result<+T, +E> = Success(value: T) | Failure(error: E)
}
