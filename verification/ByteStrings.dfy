module ByteStrings {
  newtype byte = x: int | 0 <= x < 256

  type Bytes = seq<byte>

  /** The concatenation of successive chunks or reads. */
  function Stream(chunks: seq<Bytes>): Bytes {
    if chunks == [] then [] else Stream(chunks[..|chunks| - 1]) + chunks[|chunks| - 1]
  }
}
