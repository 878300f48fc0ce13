/** Optional values, the errors the queries can raise, and results that carry either. */
module Results {

  /** Java's `Optional`: either empty or holding one value. */
  datatype Option<+T> = None | Some(value: T)

  /** The exceptions the queries can throw. */
  datatype Error =
    /** `EntityNotFoundException` with its message. */
    | EntityNotFound(message: string)
    /** `ArrayIndexOutOfBoundsException` when reading `index` of an array of `length` elements. */
    | IndexOutOfBounds(index: int, length: int)
    /** The `IllegalStateException` thrown by `Collectors.toMap` on a repeated key. */
    | DuplicateKey

  /** A value, or the exception raised instead of returning one. */
  datatype Result<+T> = Success(value: T) | Failure(error: Error)
}
