/** Option and Result: the "absent or present" and "returned or thrown"
    outcomes of the documentation helpers. */
module Wrappers {

  datatype Option<+T> = None | Some(value: T)

  datatype Result<+T, +E> = Success(value: T) | Failure(error: E)
}
