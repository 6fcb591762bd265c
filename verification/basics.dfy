/** Small failure-carrying datatypes shared by the sync engine model. */
module Basics {

  /** A Kotlin nullable value: `None` stands for `null`. */
  datatype Option<T> = None | Some(value: T)

  /** A computation that either produces a value or throws. */
  datatype Result<T, E> = Ok(value: T) | Err(error: E)
}
