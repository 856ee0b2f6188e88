/** Bytes, and a SHA-256 that is symbolic: digests are equal only for equal bytes. */
module ByteStrings {
  newtype byte = x: int | 0 <= x < 256
  type Bytes = seq<byte>

  datatype Digest = Sha256(of: Bytes)
}
