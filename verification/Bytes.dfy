/**
 Byte strings and the small result types the other modules share. Go strings are byte
 sequences, so keys, node identifiers and blobs all have type `Str`.
 */
module Bytes {

  type byte = x: int | 0 <= x < 256

  type Str = seq<byte>

  datatype Option<+T> = None | Some(value: T)

  /** The outcome of a decoder: the value read together with the advanced offset, or a malformed input. */
  datatype Read<+T> = Malformed | Read(value: T, next: nat)
}
