/** Optional and fallible values: `None` stands for JavaScript's `undefined`,
    `Failure` for an exception the code would throw. */
module Wrappers {

  datatype Option<+T> = None | Some(value: T)

  datatype Result<+T, +E> = Success(value: T) | Failure(error: E)
}
