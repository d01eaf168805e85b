/** The error-or-value shape of Go's `(T, error)` returns. */
module Results {

  datatype Result<+T, +E> = Success(value: T) | Failure(error: E)
}

/** Go's `byte`, the element of every buffer, string and key in the model. */
module Bytes {

  type byte = b: int | 0 <= b < 256
}
