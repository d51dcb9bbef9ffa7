/** Values shared by every part of the generator's model. */
module Types {
  /** One byte of the UTF-8 form of a file name. */
  newtype byte = b: int | 0 <= b < 256

  datatype Option<+T> = None | Some(value: T)

  /** The exceptions that formatting a record can raise: `ValueError` from
      `datetime.strptime`, `IndexError` from indexing the dot-separated parts
      of a time. Either one aborts the whole page generation. */
  datatype Error = ValueError | IndexError

  datatype Result<+T> = Success(value: T) | Failure(error: Error)

  /** Regrouping a concatenation, as a fact the proofs can cite instead of
      proving it again by extensionality in a large context. */
  lemma AppendAssoc<T>(x: seq<T>, y: seq<T>, z: seq<T>)
    ensures x + (y + z) == (x + y) + z
  {
  }
}
