/** Failure-carrying datatypes shared by every module of the model: a missing
    value (Python's None) and an operation that either returns a value or
    raises an error. */
module Results {

  datatype Option<+T> = None | Some(value: T)

  datatype Result<+R, +E> = Success(value: R) | Failure(error: E)
}
