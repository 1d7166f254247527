/** Result types shared by the splay-tree modules. */
module Wrappers {

  /** An optional value; `None` is Java's `null` result of a lookup. */
  datatype Option<+T> = None | Some(value: T)

  /** The outcome of a Java call that can either return normally or throw
      the `NullPointerException` raised by dereferencing a null link. */
  datatype Outcome<+T> = Ok(value: T) | NullPointerException
}
