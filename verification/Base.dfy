/** What all modules share: bytes, and values that may be missing. */
module Base {
  type byte = x: int | 0 <= x < 256
  type bytes = seq<byte>

  datatype Option<T> = None | Some(value: T)
}
