/** Octets, and the option type used where the program has undefined or null. */
module Bytes {

  type byte = x: int | 0 <= x < 256

  type bytes = seq<byte>

  datatype Option<+T> = None | Some(value: T)

  function Min(a: int, b: int): int {
    if a <= b then a else b
  }

  /** A positional read of at most `len` octets: short only at the end of the file. */
  function ReadAt(file: bytes, offset: nat, len: nat): (chunk: bytes)
    ensures |chunk| <= len
    ensures offset <= |file| ==> |chunk| == Min(len, |file| - offset)
    ensures offset >= |file| ==> chunk == []
  {
    if offset >= |file| then [] else file[offset..Min(offset + len, |file|)]
  }

  function Concat(chunks: seq<bytes>): bytes {
    if chunks == [] then [] else chunks[0] + Concat(chunks[1..])
  }
}
