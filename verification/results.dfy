/** Failure-carrying wrappers shared by the heap and the argmax/argmin model. */
module Results {

  /** An optional value; the heap's capacity uses None for Python's `inf`. */
  datatype Option<+T> = None | Some(value: T)

  /** The outcome of an operation that the source lets raise an exception. */
  datatype Result<+R, +E> = Success(value: R) | Failure(error: E)
}
