/** Optional values and success-or-error results used by the roster model. */
module Options {

  /** An optional value: the integer-input bounds and bin lookups use it. */
  datatype Option<+T> = None | Some(value: T)

  /** Either a computed value or the reason it was refused. */
  datatype Result<+T, +E> = Success(value: T) | Failure(error: E)
}
