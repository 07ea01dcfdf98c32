/** Shared vocabulary: bytes, the Option and Result wrappers, and the few
    byte values the path code compares against. Go strings and []byte are
    both modelled as sequences of bytes. */
module Base {

  type Byte = b: int | 0 <= b < 256

  type Bytes = seq<Byte>

  datatype Option<+T> = None | Some(value: T)

  datatype Result<+T, +E> = Ok(value: T) | Err(error: E)

  const Slash: Byte := '/' as int
  const Percent: Byte := '%' as int
  const Star: Byte := '*' as int

  /** The route pattern segment that denotes the wildcard child. */
  const Wildcard: Bytes := [Star]
}
