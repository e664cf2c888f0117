/** Octets as JavaScript prints and parses them in base 16. */
module Hex {
  import opened Bytes

  function Digit(d: nat): char
    requires d < 16
  {
    if d < 10 then '0' + d as char else 'a' + (d - 10) as char
  }

  predicate IsDigit(c: char) {
    '0' <= c <= '9' || 'a' <= c <= 'f' || 'A' <= c <= 'F'
  }

  predicate IsPrinted(c: char) {
    '0' <= c <= '9' || 'a' <= c <= 'f'
  }

  function DigitValue(c: char): nat
    requires IsDigit(c)
  {
    if c <= '9' then (c - '0') as nat
    else if c <= 'F' then (c - 'A') as nat + 10
    else (c - 'a') as nat + 10
  }

  /** toString(16).padStart(2, '0') of an octet. */
  function Print(b: byte): (s: string)
    ensures |s| == 2 && IsPrinted(s[0]) && IsPrinted(s[1])
  {
    [Digit(b / 16), Digit(b % 16)]
  }

  /** parseInt(s, 16), as an octet keeps it: the digits at the front, and 0 if there are
      none. */
  function ParseFrom(s: string, acc: byte): byte
    decreases |s|
  {
    if s == [] || !IsDigit(s[0]) then acc else ParseFrom(s[1..], (acc * 16 + DigitValue(s[0])) % 256)
  }

  function Parse(s: string): byte {
    ParseFrom(s, 0)
  }

  lemma ParsePair(s: string)
    requires |s| == 2 && IsPrinted(s[0]) && IsPrinted(s[1])
    ensures Parse(s) as int == DigitValue(s[0]) * 16 + DigitValue(s[1])
    ensures Print(Parse(s)) == s
  {
    PairParses(s);
    DigitOfValue(s[0]);
    DigitOfValue(s[1]);
    hide Digit, DigitValue, Parse;
    var d, e := DigitValue(s[0]), DigitValue(s[1]);
    assert (d * 16 + e) / 16 == d && (d * 16 + e) % 16 == e;
  }

  lemma PairParses(s: string)
    requires |s| == 2 && IsPrinted(s[0]) && IsPrinted(s[1])
    ensures Parse(s) as int == DigitValue(s[0]) * 16 + DigitValue(s[1])
  {
    DigitOfValue(s[0]);
    DigitOfValue(s[1]);
    hide Digit, DigitValue;
    var d, e := DigitValue(s[0]), DigitValue(s[1]);
    assert d % 256 == d && (d * 16 + e) % 256 == d * 16 + e;
    assert ParseFrom(s, 0) == ParseFrom(s[1..], d);
    assert ParseFrom(s[1..], d) == ParseFrom(s[1..][1..], d * 16 + e);
  }

  lemma DigitOfValue(c: char)
    requires IsPrinted(c)
    ensures DigitValue(c) < 16 && Digit(DigitValue(c)) == c
  {
  }

  lemma ParsePrint(b: byte)
    ensures Parse(Print(b)) == b
  {
    ParsePair(Print(b));
  }
}
