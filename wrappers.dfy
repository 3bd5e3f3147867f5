/** Small failure-carrying datatypes used throughout the model. */
module Wrappers {

  /** `None` stands for a missing value; where it models a decrypted cell it is
      the `False` that the cipher library returns when a token does not decrypt. */
  datatype Option<+T> = None | Some(value: T)

  /** The value of a call that either returns normally or raises an exception. */
  datatype Result<+T, +E> = Success(value: T) | Failure(error: E)
}
