/** Small value types shared by the modules of this model. */
module Wrappers {

  /** A value that may be absent; stands for Python's `Optional[T]` (None or a value). */
  datatype Option<+T> = None | Some(value: T)

  /** The Python exception classes that the modelled code can let escape. */
  datatype PyError =
    | ValueError    // unpacking a list of the wrong length
    | TypeError     // hmac.compare_digest on a str holding non-ASCII characters
    | KeyError(key: string)  // subscripting a dict with a key it does not hold

  /** What a Python call does: return a value, or raise an exception to its caller. */
  datatype Outcome<+T> = Returns(value: T) | Raises(error: PyError)

  /** Python truthiness of an optional string: None and "" are falsy. */
  predicate Truthy(s: Option<string>)
  {
    s.Some? && s.value != ""
  }
}
