/** Present/absent and success/failure values, used where the program returns
    None or raises an exception. */
module Wrappers {

  datatype Option<+T> = None | Some(value: T)

  datatype Result<+R, +E> = Success(value: R) | Failure(error: E)
}
