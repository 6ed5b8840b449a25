/** Optional values and success-or-failure results, shared by the other modules. */
module Results {

  /** A value that may be missing: a JSON key that is absent, a reading that
      does not exist. */
  datatype Option<+T> = None | Some(value: T)

  /** The outcome of a step that either produces a value or raises. */
  datatype Result<+R, +E> = Success(value: R) | Failure(error: E)
}
