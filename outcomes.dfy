/** Success/failure values: the model's stand-in for the C++ exceptions the
    library throws. */
module Outcomes {

  datatype Option<+T> = None | Some(value: T)

  datatype Result<+T, +E> = Success(value: T) | Failure(error: E)
}
