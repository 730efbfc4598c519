/** Optional values and fallible results, standing in for Java's nulls and exceptions. */
module Wrappers {

  /** A possibly-absent value: `None` plays the role of a Java `null`. */
  datatype Option<+T> = None | Some(value: T)

  /** The outcome of a computation that may throw: `Err` carries what was thrown. */
  datatype Result<+T, +E> = Ok(value: T) | Err(error: E)
}
