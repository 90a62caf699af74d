/** Failure-carrying datatypes used throughout the model.
    - Option<T> models Python's `None` / value returns.
    - Result<T, E> models a value or a raised exception.
 */
module Wrappers {

  datatype Option<+T> = None | Some(value: T)

  datatype Result<+T, +E> = Success(value: T) | Failure(error: E)
}
