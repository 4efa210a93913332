/** Failure-carrying datatypes shared by the whole model: a Python `None`
    becomes `None`, and a raised exception becomes `Failure`. */
module Wrappers {

  datatype Option<+T> = None | Some(value: T)

  datatype Result<+T, +E> = Success(value: T) | Failure(error: E)
}
