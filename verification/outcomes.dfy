/** Java's nullable references and thrown exceptions, as values. */
module Outcomes {

  /** A reference that may be `null` (`None`). */
  datatype Option<+T> = None | Some(value: T)

  /** The one exception the modelled code can raise. */
  datatype JavaException = NullPointerException

  /** The outcome of a Java call: it returns a value or throws. */
  datatype Outcome<+T> = Returns(value: T) | Throws(exception: JavaException)

  /** Some element of the list is `null`. */
  predicate ContainsNull<T>(s: seq<Option<T>>) {
    exists i :: 0 <= i < |s| && s[i].None?
  }
}
