/** Option and Result datatypes used in place of Java's null and exceptions. */
module Wrappers {

  /** An optional value: `None` stands for Java's `null` (no edge, no predecessor, infinite cost). */
  datatype Option<T> = None | Some(value: T)

  /** The outcome of a store operation that may throw `IllegalArgumentException` in the source. */
  datatype Result<T, E> = Ok(value: T) | Err(error: E)
}
