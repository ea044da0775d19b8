/** Optional values and results, standing for the source's `None` returns and its failures. */
module Options {

  /** `None` is the source's `None`; `Some(v)` a present value. */
  datatype Option<+T> = None | Some(value: T)

  /** A computed value, or the reason none could be computed. */
  datatype Result<+T, +E> = Success(value: T) | Failure(error: E)
}
