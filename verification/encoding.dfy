/** Addresses and option lists in DHCP packets: src/shared/encoding.mts and the readers of
    src/dhcp/protocol.mts. */
module Encoding {
  import opened Bytes
  import opened Buffers
  import Decimal
  import Hex
  import Network

  type IPv4 = string
  type MAC = string

  // ---- IPv4 addresses ----------------------------------------------------------------------

  /** What an octet keeps of Number(part): a missing part or no number is 0. */
  function Octet(parts: seq<string>, i: nat): byte {
    Network.Operand(parts, i) % 256
  }

  function IPv4Bytes(ip: IPv4): (b: bytes)
    ensures |b| == 4
  {
    var parts := Network.SplitOn(ip, '.');
    [Octet(parts, 0), Octet(parts, 1), Octet(parts, 2), Octet(parts, 3)]
  }

  function ReadIPv4(b: bytes): IPv4
    requires |b| == 4
  {
    Network.Dotted(b[0], b[1], b[2], b[3])
  }

  method WriteIPv4(buf: array<byte>, offset: nat, ip: IPv4)
    requires offset + 4 <= buf.Length
    modifies buf
    ensures buf[..] == Splice(old(buf[..]), offset, IPv4Bytes(ip))
  {
    ghost var was := buf[..];
    var parts := Network.SplitOn(ip, '.');
    buf[offset] := Octet(parts, 0);
    buf[offset + 1] := Octet(parts, 1);
    buf[offset + 2] := Octet(parts, 2);
    buf[offset + 3] := Octet(parts, 3);
    assert buf[..] == was[..offset] + IPv4Bytes(ip) + was[offset + 4..];
  }

  /** Four decimal numbers below 256, each as it would be printed. */
  predicate CanonicalPart(s: string) {
    Network.AllDigits(s) && Decimal.Value(s) < 256 && Decimal.Print(Decimal.Value(s)) == s
  }

  predicate CanonicalIPv4(ip: IPv4) {
    var parts := Network.SplitOn(ip, '.');
    |parts| == 4 && forall i :: 0 <= i < 4 ==> CanonicalPart(parts[i])
  }

  lemma {:induction false} SplitJoins(s: string, c: char)
    ensures Joined(Network.SplitOn(s, c), c) == s
    decreases |s|
  {
    if s != [] {
      SplitJoins(s[1..], c);
      var rest := Network.SplitOn(s[1..], c);
      if s[0] == c {
        assert ([""] + rest)[1..] == rest;
      } else {
        var parts := [[s[0]] + rest[0]] + rest[1..];
        assert parts[1..] == rest[1..];
        if |rest| > 1 {
          assert ([s[0]] + rest[0]) + [c] + Joined(rest[1..], c) == [s[0]] + (rest[0] + [c] + Joined(rest[1..], c));
        }
      }
    }
  }

  function Joined(parts: seq<string>, c: char): string
    requires parts != []
  {
    if |parts| == 1 then parts[0] else parts[0] + [c] + Joined(parts[1..], c)
  }

  lemma JoinFour(p: seq<string>, c: char)
    requires |p| == 4
    ensures Joined(p, c) == p[0] + [c] + (p[1] + [c] + (p[2] + [c] + p[3]))
  {
    assert Joined(p[1..][1..][1..], c) == p[3];
    assert Joined(p[1..][1..], c) == p[2] + [c] + p[3];
    assert Joined(p[1..], c) == p[1] + [c] + (p[2] + [c] + p[3]);
  }

  lemma OctetOfPrint(parts: seq<string>, i: nat)
    requires i < |parts| && CanonicalPart(parts[i])
    ensures Decimal.Print(Octet(parts, i)) == parts[i]
  {
    hide Decimal.Print, Decimal.Value;
    var n := Decimal.Value(parts[i]);
    assert n % Network.WORD == n && n % 256 == n;
  }

  /** An address comes back from the wire exactly when it was written the usual way. */
  lemma IPv4RoundTrip(ip: IPv4)
    ensures ReadIPv4(IPv4Bytes(ip)) == ip <==> CanonicalIPv4(ip)
  {
    hide Network.SplitOn, Octet, CanonicalPart;
    if CanonicalIPv4(ip) {
      var p := Network.SplitOn(ip, '.');
      OctetOfPrint(p, 0);
      OctetOfPrint(p, 1);
      OctetOfPrint(p, 2);
      OctetOfPrint(p, 3);
      SplitJoins(ip, '.');
      JoinFour(p, '.');
      assert ReadIPv4(IPv4Bytes(ip)) == p[0] + "." + p[1] + "." + p[2] + "." + p[3];
    }
    if ReadIPv4(IPv4Bytes(ip)) == ip {
      ReadIsCanonical(IPv4Bytes(ip));
    }
  }

  lemma ReadIsCanonical(b: bytes)
    requires |b| == 4
    ensures CanonicalIPv4(ReadIPv4(b)) && IPv4Bytes(ReadIPv4(b)) == b
  {
    hide Network.SplitOn, Octet, CanonicalPart;
    var p := [Decimal.Print(b[0]), Decimal.Print(b[1]), Decimal.Print(b[2]), Decimal.Print(b[3])];
    forall i | 0 <= i < 4 ensures '.' !in p[i] && CanonicalPart(p[i]) && Octet(p, i) == b[i] {
      PrintIsCanonical(p, i, b[i]);
    }
    Network.SplitFour(p[0], p[1], p[2], p[3]);
  }

  lemma PrintIsCanonical(p: seq<string>, i: nat, n: byte)
    requires i < |p| && p[i] == Decimal.Print(n)
    ensures '.' !in p[i] && CanonicalPart(p[i]) && Octet(p, i) == n
  {
    Network.PrintHasNoDot(n);
    Decimal.ValueOfPrint(n);
  }

  // ---- MAC addresses -----------------------------------------------------------------------

  function MacOctet(parts: seq<string>, i: nat): byte {
    if i < |parts| then Hex.Parse(parts[i]) else 0
  }

  function MacBytes(mac: MAC): (b: bytes)
    ensures |b| == 6
  {
    var parts := Network.SplitOn(mac, ':');
    seq(6, i requires 0 <= i => MacOctet(parts, i))
  }

  function ReadMAC(b: bytes): MAC
    requires |b| == 6
  {
    Joined(HexParts(b), ':')
  }

  function HexParts(b: bytes): seq<string> {
    seq(|b|, i requires 0 <= i < |b| => Hex.Print(b[i]))
  }

  method WriteMAC(buf: array<byte>, offset: nat, mac: MAC)
    requires offset + 6 <= buf.Length
    modifies buf
    ensures buf[..] == Splice(old(buf[..]), offset, MacBytes(mac))
  {
    hide Splice;
    ghost var was, octets := buf[..], MacBytes(mac);
    var parts := Network.SplitOn(mac, ':');
    SpliceNothing(was, offset);
    assert octets[..0] == [];
    for i := 0 to 6
      invariant buf[..] == Splice(was, offset, octets[..i])
    {
      ghost var mid := buf[..];
      buf[offset + i] := MacOctet(parts, i);
      assert buf[..] == mid[offset + i := octets[i]] && octets[..i + 1] == octets[..i] + [octets[i]];
      SpliceNext(was, offset, octets[..i], octets[i]);
    }
    assert octets[..6] == octets;
  }

  /** Six pairs of lower-case hexadecimal digits. */
  predicate CanonicalMac(mac: MAC) {
    var parts := Network.SplitOn(mac, ':');
    |parts| == 6 && forall i :: 0 <= i < 6 ==> |parts[i]| == 2 && Hex.IsPrinted(parts[i][0]) && Hex.IsPrinted(parts[i][1])
  }

  lemma {:induction false} JoinedSplits(p: seq<string>, c: char)
    requires p != [] && forall i :: 0 <= i < |p| ==> c !in p[i]
    ensures Network.SplitOn(Joined(p, c), c) == p
    decreases |p|
  {
    if |p| == 1 {
      Network.SplitNone(p[0], c);
    } else {
      JoinedSplits(p[1..], c);
      Network.SplitFirst(p[0], Joined(p[1..], c), c);
    }
  }

  /** A MAC address comes back from the wire exactly when it is in lower case, in pairs. */
  lemma MacRoundTrip(mac: MAC)
    ensures ReadMAC(MacBytes(mac)) == mac <==> CanonicalMac(mac)
  {
    hide Network.SplitOn, Hex.Parse, Hex.Print;
    var b, p := MacBytes(mac), Network.SplitOn(mac, ':');
    SplitJoins(mac, ':');
    if CanonicalMac(mac) {
      forall i | 0 <= i < 6 ensures HexParts(b)[i] == p[i] {
        Hex.ParsePair(p[i]);
      }
      assert HexParts(b) == p;
    }
    if ReadMAC(b) == mac {
      ReadMacIsCanonical(b);
    }
  }

  lemma ReadMacIsCanonical(b: bytes)
    requires |b| == 6
    ensures CanonicalMac(ReadMAC(b)) && MacBytes(ReadMAC(b)) == b
  {
    hide Network.SplitOn, Hex.Parse, Hex.Print, Joined;
    var p := HexParts(b);
    forall i | 0 <= i < 6 ensures ':' !in p[i] && MacOctet(p, i) == b[i] {
      Hex.ParsePrint(b[i]);
    }
    JoinedSplits(p, ':');
  }

  // ---- Options -----------------------------------------------------------------------------

  const PAD: byte := 0
  const END: byte := 255

  datatype RawOption = RawOption(code: byte, data: bytes)

  /** An option as it is written: the length octet keeps only the length modulo 256. */
  function OptionBytes(o: RawOption): bytes {
    if o.code == PAD then [PAD] else [o.code, |o.data| % 256] + o.data
  }

  function OptionList(options: seq<RawOption>): bytes {
    if options == [] then [END] else OptionBytes(options[0]) + OptionList(options[1..])
  }

  lemma Regroup(a: bytes, b: bytes, c: bytes)
    ensures a + (b + c) == (a + b) + c
  {
  }

  lemma AppendTwo(bufs: seq<bytes>, x: bytes, y: bytes)
    ensures Concat(bufs + [x] + [y]) == Concat(bufs) + (x + y)
  {
    ConcatSnoc(bufs, x);
    ConcatSnoc(bufs + [x], y);
  }

  method EncodeOptions(options: seq<RawOption>) returns (buf: bytes)
    ensures buf == OptionList(options)
  {
    var bufs: seq<bytes> := [];
    for i := 0 to |options|
      invariant Concat(bufs) + OptionList(options[i..]) == OptionList(options)
    {
      var opt := options[i];
      assert options[i..][1..] == options[i + 1..];
      ConcatSnoc(bufs, OptionBytes(opt));
      Regroup(Concat(bufs), OptionBytes(opt), OptionList(options[i + 1..]));
      if opt.code == PAD {
        bufs := bufs + [[PAD]];
      } else {
        var header: bytes := [opt.code, |opt.data| % 256];
        AppendTwo(bufs, header, opt.data);
        bufs := bufs + [header] + [opt.data];
      }
    }
    ConcatSnoc(bufs, [END]);
    bufs := bufs + [[END]];
    buf := Concat(bufs);
  }

  // ---- Option parsing ----------------------------------------------------------------------

  /** The grammar of section 2 of RFC 1533, without its End option. */
  datatype Item = Pad | Tlv(code: byte, data: bytes)

  predicate ValidItem(x: Item) {
    x.Tlv? ==> x.code != PAD && x.code != END && |x.data| < 256
  }

  function ItemBytes(x: Item): bytes
    requires ValidItem(x)
  {
    match x
    case Pad => [PAD]
    case Tlv(code, data) => [code, |data|] + data
  }

  function Spelled(items: seq<Item>): bytes
    requires forall i :: 0 <= i < |items| ==> ValidItem(items[i])
  {
    if items == [] then [] else ItemBytes(items[0]) + Spelled(items[1..])
  }

  /** Where reading stops: at the end of the buffer, at End, or at an option cut short. */
  predicate Stops(rest: bytes) {
    rest == [] || rest[0] == END || (rest[0] != PAD && (|rest| == 1 || 2 + rest[1] > |rest|))
  }

  /** The buffer is these items followed by something that cannot go on. */
  ghost predicate Reads(buf: bytes, items: seq<Item>, rest: bytes) {
    && (forall i :: 0 <= i < |items| ==> ValidItem(items[i]))
    && buf == Spelled(items) + rest && Stops(rest)
  }

  /** The first item of a buffer that does not stop reading, and what is behind it. */
  function HeadItem(buf: bytes): (r: (Item, bytes))
    requires !Stops(buf)
    ensures |r.1| < |buf|
  {
    if buf[0] == PAD then (Pad, buf[1..]) else (Tlv(buf[0], buf[2..2 + buf[1]]), buf[2 + buf[1]..])
  }

  function ParseItems(buf: bytes): (seq<Item>, bytes)
    decreases |buf|
  {
    if Stops(buf) then ([], buf)
    else
      var (x, tail) := HeadItem(buf);
      var (items, rest) := ParseItems(tail);
      ([x] + items, rest)
  }

  /** Every buffer reads in exactly one way. */
  lemma ReadsOneWay(buf: bytes, items: seq<Item>, rest: bytes)
    ensures Reads(buf, items, rest) <==> ParseItems(buf) == (items, rest)
  {
    ParsedReads(buf);
    if Reads(buf, items, rest) {
      ReadsParsed(items, rest);
    }
  }

  lemma {:induction false} ParsedReads(buf: bytes)
    ensures Reads(buf, ParseItems(buf).0, ParseItems(buf).1)
    decreases |buf|
  {
    if !Stops(buf) {
      var x, tail := HeadItem(buf).0, HeadItem(buf).1;
      ParsedReads(tail);
      HeadItemRead(buf);
      hide Reads, HeadItem, Stops;
      ReadsCons(buf, x, tail, ParseItems(tail).0, ParseItems(tail).1);
    }
  }

  lemma HeadItemRead(buf: bytes)
    requires !Stops(buf)
    ensures var (x, tail) := HeadItem(buf); ValidItem(x) && buf == ItemBytes(x) + tail
  {
    if buf[0] != PAD {
      assert buf == [buf[0], buf[1]] + buf[2..2 + buf[1]] + buf[2 + buf[1]..];
    }
  }

  lemma ReadsCons(buf: bytes, x: Item, tail: bytes, items: seq<Item>, rest: bytes)
    requires ValidItem(x) && buf == ItemBytes(x) + tail && Reads(tail, items, rest)
    ensures Reads(buf, [x] + items, rest)
  {
    hide ItemBytes, Stops;
    SpelledCons(x, items, rest);
  }

  lemma SpelledCons(x: Item, items: seq<Item>, rest: bytes)
    requires ValidItem(x) && forall i :: 0 <= i < |items| ==> ValidItem(items[i])
    ensures forall i :: 0 <= i < |[x] + items| ==> ValidItem(([x] + items)[i])
    ensures Spelled([x] + items) + rest == ItemBytes(x) + (Spelled(items) + rest)
  {
    assert ([x] + items)[1..] == items;
  }

  lemma {:induction false} ReadsParsed(items: seq<Item>, rest: bytes)
    requires (forall i :: 0 <= i < |items| ==> ValidItem(items[i])) && Stops(rest)
    ensures ParseItems(Spelled(items) + rest) == (items, rest)
    decreases |items|
  {
    var buf := Spelled(items) + rest;
    if items == [] {
      assert buf == rest;
    } else {
      var x, tail := items[0], Spelled(items[1..]) + rest;
      ReadsParsed(items[1..], rest);
      assert [x] + items[1..] == items;
      SpelledCons(x, items[1..], rest);
      if x.Pad? {
        assert buf == [PAD] + tail && buf[1..] == tail;
      } else {
        assert buf == [x.code, |x.data|] + x.data + tail;
        assert buf[2..2 + buf[1]] == x.data && buf[2 + buf[1]..] == tail;
      }
    }
  }

  /** The options by code; a later one replaces an earlier one. */
  function Collect(items: seq<Item>, options: map<byte, bytes>): map<byte, bytes> {
    if items == [] then options
    else Collect(items[1..], if items[0].Tlv? then options[items[0].code := items[0].data] else options)
  }

  predicate Has(x: Item, code: byte) {
    x.Tlv? && x.code == code
  }

  lemma {:induction false} CollectAbsent(items: seq<Item>, code: byte, options: map<byte, bytes>)
    requires forall j :: 0 <= j < |items| ==> !Has(items[j], code)
    ensures code in Collect(items, options) <==> code in options
    ensures code in options ==> Collect(items, options)[code] == options[code]
    decreases |items|
  {
    if items != [] {
      CollectAbsent(items[1..], code, if items[0].Tlv? then options[items[0].code := items[0].data] else options);
    }
  }

  /** The last item of a code is the one that counts. */
  lemma {:induction false} CollectLast(items: seq<Item>, i: nat, options: map<byte, bytes>)
    requires i < |items| && items[i].Tlv?
    requires forall j :: i < j < |items| ==> !Has(items[j], items[i].code)
    ensures items[i].code in Collect(items, options)
    ensures Collect(items, options)[items[i].code] == items[i].data
    decreases |items|
  {
    var next := if items[0].Tlv? then options[items[0].code := items[0].data] else options;
    if i == 0 {
      CollectAbsent(items[1..], items[0].code, next);
    } else {
      CollectLast(items[1..], i - 1, next);
    }
  }

  /** The last-wins options of the items that a stretch of a buffer holds. */
  function ParsedOptions(buf: bytes): map<byte, bytes> {
    Collect(ParseItems(buf).0, map[])
  }

  lemma ItemStep(buf: bytes, options: map<byte, bytes>)
    ensures var all := Collect(ParseItems(buf).0, options);
            if Stops(buf) then all == options
            else if buf[0] == PAD then all == Collect(ParseItems(buf[1..]).0, options)
            else all == Collect(ParseItems(buf[2 + buf[1]..]).0, options[buf[0] := buf[2..2 + buf[1]]])
  {
    if !Stops(buf) {
      var (x, tail) := HeadItem(buf);
      assert ([x] + ParseItems(tail).0)[1..] == ParseItems(tail).0;
    }
  }

  method ParseOptions(buf: bytes, offset: nat, length: nat) returns (options: map<byte, bytes>)
    requires offset + length <= |buf|
    ensures options == ParsedOptions(buf[offset..offset + length])
  {
    hide Collect, ParseItems;
    options := map[];
    var i, end := offset, offset + length;
    while i < end
      invariant offset <= i <= end
      invariant Collect(ParseItems(buf[i..end]).0, options) == ParsedOptions(buf[offset..end])
      decreases end - i
    {
      ghost var rest := buf[i..end];
      ItemStep(rest, options);
      var code := buf[i];
      i := i + 1;
      if code == PAD {
        assert rest[1..] == buf[i..end];
        continue;
      }
      if code == END {
        break;
      }
      if i >= end {
        break;
      }
      var dataLen := buf[i];
      i := i + 1;
      if i + dataLen > end {
        break;
      }
      var data := buf[i..i + dataLen];
      assert data == rest[2..2 + rest[1]];
      options := options[code := data];
      i := i + dataLen;
      assert rest[2 + rest[1]..] == buf[i..end];
    }
    if i == end {
      ItemStep(buf[end..end], options);
    }
  }
}
