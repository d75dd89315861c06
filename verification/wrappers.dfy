/** Optional values (Java's nullable references) and success-or-error outcomes (Java's exceptions). */
module Wrappers {

  /** `None` stands for a Java `null`. */
  datatype Option<+T> = None | Some(value: T)

  /** `Err` stands for an exception that escapes the modelled code. */
  datatype Result<+T, +E> = Ok(value: T) | Err(error: E)
}
