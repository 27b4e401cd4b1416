/** What several modules share: bytes, and results that may be missing. */
module Commons {
  /** A byte of a page, a stream or a message. */
  type byte = x: int | 0 <= x < 256

  datatype Option<+T> = None | Some(value: T)
}
