/** Small value types shared by the exercise modules: optional values and raised exceptions. */
module Wrappers {

  /** Python's `None` next to a real value. */
  datatype Option<+T> = None | Some(value: T)

  /** The built-in exceptions the exercises raise, with their messages. */
  datatype PyError = IndexError(msg: string) | ValueError(msg: string)

  /** A value returned normally, or the exception raised instead. */
  datatype Result<+T> = Success(value: T) | Failure(error: PyError)
}
