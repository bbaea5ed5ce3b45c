/** Nullable values and thrown exceptions, as values. */
module Wrappers {

  /** A Kotlin nullable: None stands for null. */
  datatype Option<T> = None | Some(value: T)

  /** A computation that either returns a value or throws. */
  datatype Result<T, E> = Ok(value: T) | Err(error: E)
}
