/** Strings in buffers: the 'ascii' encoding, which keeps the low octet of a character when
    it writes and the low seven bits of an octet when it reads.  A char stands for one
    UTF-16 code unit. */
module Ascii {
  import opened Bytes

  function ByteOf(c: char): byte {
    c as int % 256
  }

  function CharOf(b: byte): char {
    (b % 128) as char
  }

  function Encode(s: string): (bs: bytes)
    ensures |bs| == |s|
  {
    seq(|s|, i requires 0 <= i < |s| => ByteOf(s[i]))
  }

  function Decode(bs: bytes): (s: string)
    ensures |s| == |bs|
  {
    seq(|bs|, i requires 0 <= i < |bs| => CharOf(bs[i]))
  }

  /** Seven bits, and no NUL: what a NUL-terminated ASCII string can carry. */
  predicate Clean(s: string) {
    forall i :: 0 <= i < |s| ==> 0 < s[i] as int < 128
  }

  predicate SevenBit(s: string) {
    forall i :: 0 <= i < |s| ==> s[i] as int < 128
  }

  /** Exactly the seven-bit strings survive. */
  lemma DecodeEncode(s: string)
    ensures Decode(Encode(s)) == s <==> SevenBit(s)
    ensures Clean(s) <==> SevenBit(s) && 0 !in Encode(s)
  {
    if Decode(Encode(s)) == s {
      forall i | 0 <= i < |s| ensures s[i] as int < 128 {
        assert Decode(Encode(s))[i] == s[i];
      }
    }
    if Clean(s) {
      forall i | 0 <= i < |s| ensures Encode(s)[i] != 0 {
      }
    }
    if SevenBit(s) && 0 !in Encode(s) {
      forall i | 0 <= i < |s| ensures 0 < s[i] as int {
        assert Encode(s)[i] != 0;
      }
    }
  }

  function LowerChar(c: char): char {
    if 'A' <= c <= 'Z' then (c as int + 32) as char else c
  }

  function Lower(s: string): (t: string)
    ensures |t| == |s|
  {
    seq(|s|, i requires 0 <= i < |s| => LowerChar(s[i]))
  }
}
