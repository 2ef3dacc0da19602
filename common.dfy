/** Types shared by every part of the peer: bytes, identifiers and optional values. */
module Common {

  /** A Go string or byte slice: file names, file contents and base64 text are all byte strings. */
  type Bytes = seq<bv8>

  /** Go's `uint32`, the type of every identifier on the ring. Comparisons on it are
      the plain unsigned `<`, `<=`, `>` of the source; nothing wraps. */
  newtype uint32 = x: int | 0 <= x < 0x1_0000_0000

  datatype Option<+T> = None | Some(value: T)

  /** A reply, or the error an RPC handler returned instead of filling the reply. */
  datatype Result<+T, +E> = Ok(value: T) | Err(error: E)

  /** The byte ':' that joins an ip and a port into a dialable address. */
  const Colon: bv8 := 58
}
