/** Failure-carrying values shared by the model: an optional value, for the
    JavaScript `undefined`, and a result that is either a value or an error,
    for code paths that throw or that a database rejects. */
module Results {

  /** A value that may be absent (`undefined` in the source). */
  datatype Option<+T> = None | Some(value: T)

  /** Either a computed value or the error that stopped the computation. */
  datatype Result<+T, +E> = Success(value: T) | Failure(error: E)
}
