/** Bytes as the upload and the dump format see them. */
module ByteStrings {
  type Byte = b: int | 0 <= b < 256

  type Bytes = seq<Byte>
}
