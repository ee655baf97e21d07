/** Option and Result datatypes shared by the model: an optional value (Python's
    `None` or a value) and a result that is either a value or a configuration error. */
module Wrappers {

  datatype Option<+T> = None | Some(value: T)

  datatype Result<+T, +E> = Success(value: T) | Failure(error: E)
}
