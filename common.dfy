/** Values shared by every component: bytes, optional values and results. */
module Common {

  /** One byte of blob content. */
  newtype byte = b: int | 0 <= b < 256

  /** A C# reference that may be null: `None` stands for `null`. */
  datatype Option<+T> = None | Some(value: T)

  /** The outcome of an operation that can fail with an error of type `E`. */
  datatype Result<+T, +E> = Success(value: T) | Failure(error: E)

  /** `string.IsNullOrEmpty`, with a null string written `None`. */
  predicate IsNullOrEmpty(s: Option<string>)
  {
    s.None? || s.value == ""
  }
}
