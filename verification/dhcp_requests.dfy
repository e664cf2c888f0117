/** What a client's packet parses to, told from its octets and option codes (RFC 2131, and
    RFC 2132, 4578 and 1533 for the options). */
module DhcpRequests {
  import opened Bytes
  import opened Buffers
  import opened DhcpPackets
  import opened Encoding
  import opened DhcpCodec
  import Ascii
  import Decimal
  import Hex
  import Network
  import Numerals

  /** The data of the last item with a code. */
  function LastOf(items: seq<Item>, code: byte): Option<bytes>
    decreases |items|
  {
    if items == [] then None
    else
      match items[|items| - 1]
      case Tlv(c, data) => if c == code then Some(data) else LastOf(items[..|items| - 1], code)
      case Pad => LastOf(items[..|items| - 1], code)
  }

  /** An option of a map, as an Option. */
  function At(options: Options, code: byte): Option<bytes> {
    if code in options then Some(options[code]) else None
  }

  lemma {:induction false} CollectSnoc(items: seq<Item>, x: Item, options: Options)
    ensures Collect(items + [x], options) ==
            var m := Collect(items, options); if x.Tlv? then m[x.code := x.data] else m
    decreases |items|
  {
    if items == [] {
      assert (items + [x])[1..] == [];
    } else {
      assert (items + [x])[1..] == items[1..] + [x];
      CollectSnoc(items[1..], x, if items[0].Tlv? then options[items[0].code := items[0].data] else options);
    }
  }

  lemma {:induction false} CollectedIsLast(items: seq<Item>, code: byte)
    ensures At(Collect(items, map[]), code) == LastOf(items, code)
    decreases |items|
  {
    if items != [] {
      var before, x := items[..|items| - 1], items[|items| - 1];
      CollectedIsLast(before, code);
      assert items == before + [x];
      CollectSnoc(before, x, map[]);
    }
  }

  /** The packet: 236 octets of head, the cookie 63 82 53 63, items, and something at which
      reading stops. */
  ghost predicate Spells(buf: bytes, items: seq<Item>, rest: bytes) {
    && 240 <= |buf| && buf[236..240] == [0x63, 0x82, 0x53, 0x63]
    && (forall i :: 0 <= i < |items| ==> ValidItem(items[i]))
    && buf[240..] == Spelled(items) + rest && Stops(rest)
  }

  lemma SpelledIsParsed(buf: bytes, items: seq<Item>, rest: bytes)
    requires Spells(buf, items, rest)
    ensures Parse(buf) == Parsed(ParseHead(buf, Collect(items, map[])))
  {
    hide ParseHead, ParseItems, Collect, Spelled, Stops;
    assert ReadU32(buf[236..240]) == MAGIC_COOKIE by { CookieIs(buf[236..240]); }
    assert Reads(buf[240..], items, rest);
    ReadsOneWay(buf[240..], items, rest);
  }

  lemma CookieIs(b: bytes)
    requires |b| == 4
    ensures ReadU32(b) == MAGIC_COOKIE <==> b == [0x63, 0x82, 0x53, 0x63]
  {
    assert ReadU32(b) == ReadU16(b[..2]) * 0x1_0000 + ReadU16(b[2..]);
    assert b == [b[0], b[1], b[2], b[3]];
  }

  /** A packet is refused exactly when it is shorter than 240 octets or lacks the cookie. */
  lemma RefusedIff(buf: bytes)
    ensures Parse(buf).Parsed? <==> 240 <= |buf| && buf[236..240] == [0x63, 0x82, 0x53, 0x63]
    ensures Parse(buf).TooShort? <==> |buf| < 240
  {
    hide ParseHead, ParsedOptions, ReadU32;
    if 240 <= |buf| { CookieIs(buf[236..240]); }
  }

  /** The fixed part: each field from its octets. */
  lemma HeadIs(buf: bytes, items: seq<Item>, rest: bytes)
    requires Spells(buf, items, rest)
    ensures Parse(buf).Parsed?
    ensures var p := Parse(buf).packet;
            && p.op == buf[0] && p.htype == buf[1] && p.hlen == buf[2] && p.hops == buf[3]
            && p.xid == buf[4] as int * 0x100_0000 + buf[5] as int * 0x1_0000 + buf[6] as int * 256 + buf[7] as int
            && p.secs == buf[8] as int * 256 + buf[9] as int && p.flags == buf[10] as int * 256 + buf[11] as int
            && p.ciaddr == Network.Dotted(buf[12], buf[13], buf[14], buf[15])
            && p.yiaddr == Network.Dotted(buf[16], buf[17], buf[18], buf[19])
            && p.siaddr == Network.Dotted(buf[20], buf[21], buf[22], buf[23])
            && p.giaddr == Network.Dotted(buf[24], buf[25], buf[26], buf[27])
            && p.chaddr == ReadMAC(buf[28..34])
            && p.sname == Text(buf[44..108]) && p.file == Text(buf[108..236])
  {
    hide Collect, Text, ReadMAC, TypeOption, IsPXE, AddressOption, UuidOption, ArchOption, HostnameOption, Network.Dotted;
    SpelledIsParsed(buf, items, rest);
    var x := buf[4..8];
    assert ReadU32(x) == ReadU16(x[..2]) * 0x1_0000 + ReadU16(x[2..]);
  }

  // ---- The options that a client sends -------------------------------------------------------

  /** The text "PXEClient", as octets; the top bit of each is not looked at. */
  predicate SaysPXEClient(data: bytes) {
    var name: bytes := [0x50, 0x58, 0x45, 0x43, 0x6C, 0x69, 0x65, 0x6E, 0x74];
    9 <= |data| && forall i :: 0 <= i < 9 ==> data[i] % 128 == name[i]
  }

  lemma DecodesToPXEClient(data: bytes)
    ensures "PXEClient" <= Ascii.Decode(data) <==> SaysPXEClient(data)
  {
    var s, name := Ascii.Decode(data), "PXEClient";
    var octets: bytes := [0x50, 0x58, 0x45, 0x43, 0x6C, 0x69, 0x65, 0x6E, 0x74];
    assert |name| == 9;
    forall i | 0 <= i < 9 ensures name[i] as int == octets[i] {
    }
    if name <= s {
      forall i | 0 <= i < 9 ensures data[i] % 128 == octets[i] {
        assert s[i] == name[i] && s[i] as int == data[i] % 128;
      }
    }
    if SaysPXEClient(data) {
      forall i | 0 <= i < 9 ensures s[i] == name[i] {
        assert s[i] as int == data[i] % 128 == octets[i];
      }
      assert s[..9] == name;
    }
  }

  /** A packet is a PXE client's exactly when its last option 60 begins with "PXEClient". */
  lemma PxeIff(buf: bytes, items: seq<Item>, rest: bytes)
    requires Spells(buf, items, rest)
    ensures Parse(buf).Parsed?
    ensures Parse(buf).packet.isPXE <==> LastOf(items, 60).Some? && SaysPXEClient(LastOf(items, 60).value)
  {
    hide Collect, LastOf, SaysPXEClient, Ascii.Decode;
    SpelledIsParsed(buf, items, rest);
    CollectedIsLast(items, 60);
    if LastOf(items, 60).Some? {
      DecodesToPXEClient(LastOf(items, 60).value);
    }
  }

  /** Four octets are an address. */
  function Address(data: Option<bytes>): Option<IPv4> {
    if data.Some? && |data.value| == 4
    then Some(Network.Dotted(data.value[0], data.value[1], data.value[2], data.value[3])) else None
  }

  /** The type from option 53, the address asked for from option 50, the server's identity from
      option 54, the architecture from option 93: each from the last one of its code. */
  lemma NumbersAre(buf: bytes, items: seq<Item>, rest: bytes)
    requires Spells(buf, items, rest)
    ensures Parse(buf).Parsed?
    ensures var p := Parse(buf).packet;
            var kind, arch := LastOf(items, 53), LastOf(items, 93);
            && p.messageType == (if kind.Some? && kind.value != [] then Some(kind.value[0]) else None)
            && p.requestedIP == Address(LastOf(items, 50)) && p.serverID == Address(LastOf(items, 54))
            && p.clientArch == (if arch.Some? && 2 <= |arch.value|
                                then Some(arch.value[0] as int * 256 + arch.value[1] as int) else None)
  {
    hide Collect, LastOf, IsPXE, UuidOption, HostnameOption, Network.Dotted;
    SpelledIsParsed(buf, items, rest);
    CollectedIsLast(items, 53);
    CollectedIsLast(items, 93);
    CollectedIsLast(items, 50);
    CollectedIsLast(items, 54);
  }

  predicate AllBlank(s: string) {
    forall i :: 0 <= i < |s| ==> Numerals.Blank(s[i])
  }

  /** The text without the blanks at both of its ends. */
  ghost predicate IsTrimmed(s: string, t: string) {
    && (t != "" ==> !Numerals.Blank(t[0]) && !Numerals.Blank(t[|t| - 1]))
    && exists i, j :: IsMiddle(s, t, i, j)
  }

  predicate IsMiddle(s: string, t: string, i: nat, j: nat) {
    i <= j <= |s| && t == s[i..j] && AllBlank(s[..i]) && AllBlank(s[j..])
  }

  lemma {:induction false} TrimMiddle(s: string) returns (i: nat, j: nat)
    ensures IsMiddle(s, Trim(s), i, j)
    decreases |s|
  {
    if s != "" && Decimal.IsSpace(s[0]) {
      var tail := s[1..];
      i, j := TrimMiddle(tail);
      LongerMiddle(s, Trim(tail), i, j);
      i, j := i + 1, j + 1;
    } else if s != "" && Decimal.IsSpace(s[|s| - 1]) {
      var before := s[..|s| - 1];
      i, j := TrimMiddle(before);
      assert s[i..j] == before[i..j] && s[..i] == before[..i] && s[j..] == before[j..] + [s[|s| - 1]];
    } else {
      i, j := 0, |s|;
    }
  }

  lemma LongerMiddle(s: string, t: string, i: nat, j: nat)
    requires s != "" && Numerals.Blank(s[0]) && IsMiddle(s[1..], t, i, j)
    ensures IsMiddle(s, t, i + 1, j + 1)
  {
    assert s[i + 1..j + 1] == s[1..][i..j] && s[j + 1..] == s[1..][j..] && s[..i + 1] == [s[0]] + s[1..][..i];
  }

  lemma {:induction false} TrimmedEnds(s: string)
    ensures Trim(s) != "" ==> !Numerals.Blank(Trim(s)[0]) && !Numerals.Blank(Trim(s)[|Trim(s)| - 1])
    decreases |s|
  {
    if s != "" && Decimal.IsSpace(s[0]) {
      TrimmedEnds(s[1..]);
    } else if s != "" && Decimal.IsSpace(s[|s| - 1]) {
      TrimmedEnds(s[..|s| - 1]);
    }
  }

  lemma TrimIs(s: string)
    ensures IsTrimmed(s, Trim(s))
  {
    hide Trim, Numerals.Blank, IsMiddle;
    var i, j := TrimMiddle(s);
    TrimmedEnds(s);
  }

  /** The name from the last option 12, if that is not empty, without blanks around it. */
  lemma HostnameIs(buf: bytes, items: seq<Item>, rest: bytes)
    requires Spells(buf, items, rest)
    ensures Parse(buf).Parsed?
    ensures var name, p := LastOf(items, 12), Parse(buf).packet;
            && (p.hostname.Some? <==> name.Some? && name.value != [])
            && (p.hostname.Some? ==> IsTrimmed(Ascii.Decode(name.value), p.hostname.value))
  {
    hide Collect, LastOf, Trim, IsTrimmed, Ascii.Decode;
    SpelledIsParsed(buf, items, rest);
    CollectedIsLast(items, 12);
    if LastOf(items, 12).Some? {
      TrimIs(Ascii.Decode(LastOf(items, 12).value));
    }
  }

  // ---- The client's identity -----------------------------------------------------------------

  function HexChar(n: nat): char
    requires n < 16
  {
    "0123456789abcdef"[n]
  }

  /** Where the i-th octet stands in 8-4-4-4-12 digits. */
  function Place(i: nat): nat {
    2 * i + if i < 4 then 0 else if i < 6 then 1 else if i < 8 then 2 else if i < 10 then 3 else 4
  }

  /** The text of a UUID: 32 hexadecimal digits with dashes behind the 8th, 12th, 16th and 20th. */
  ghost predicate IsUuidText(s: string, octets: bytes) {
    && |s| == 36 && |octets| == 16 && s[8] == '-' && s[13] == '-' && s[18] == '-' && s[23] == '-'
    && forall i :: 0 <= i < 16 ==> Place(i) + 1 < 36 && s[Place(i)] == HexChar(octets[i] / 16) && s[Place(i) + 1] == HexChar(octets[i] % 16)
  }

  lemma PrintsDigits(b: byte)
    ensures Hex.Print(b) == [HexChar(b / 16), HexChar(b % 16)]
  {
  }

  lemma {:induction false} HexTextAt(b: bytes)
    ensures |HexText(b)| == 2 * |b|
    ensures forall i :: 0 <= i < |b| ==> HexText(b)[2 * i] == HexChar(b[i] / 16) && HexText(b)[2 * i + 1] == HexChar(b[i] % 16)
    decreases |b|
  {
    if b != [] {
      HexTextAt(b[1..]);
      PrintsDigits(b[0]);
      var s, t := HexText(b), HexText(b[1..]);
      assert s == Hex.Print(b[0]) + t;
      forall i | 0 <= i < |b| ensures s[2 * i] == HexChar(b[i] / 16) && s[2 * i + 1] == HexChar(b[i] % 16) {
        if i > 0 {
          assert b[1..][i - 1] == b[i] && s[2 * i] == t[2 * (i - 1)] && s[2 * i + 1] == t[2 * (i - 1) + 1];
        }
      }
    }
  }

  lemma UuidTextIs(u: bytes)
    requires |u| == 16
    ensures IsUuidText(HexText(u[..4]) + "-" + HexText(u[4..6]) + "-" + HexText(u[6..8]) + "-" + HexText(u[8..10])
                       + "-" + HexText(u[10..]), u)
  {
    hide HexText, HexChar;
    var a, b, c, d, e := HexText(u[..4]), HexText(u[4..6]), HexText(u[6..8]), HexText(u[8..10]), HexText(u[10..]);
    HexTextAt(u[..4]);
    HexTextAt(u[4..6]);
    HexTextAt(u[6..8]);
    HexTextAt(u[8..10]);
    HexTextAt(u[10..]);
    var s := a + "-" + b + "-" + c + "-" + d + "-" + e;
    assert |s| == 36;
    forall i | 0 <= i < 16 ensures s[Place(i)] == HexChar(u[i] / 16) && s[Place(i) + 1] == HexChar(u[i] % 16) {
      if i < 4 {
        assert s[2 * i] == a[2 * i] && s[2 * i + 1] == a[2 * i + 1];
      } else if i < 6 {
        assert s[2 * i + 1] == b[2 * (i - 4)] && s[2 * i + 2] == b[2 * (i - 4) + 1];
      } else if i < 8 {
        assert s[2 * i + 2] == c[2 * (i - 6)] && s[2 * i + 3] == c[2 * (i - 6) + 1];
      } else if i < 10 {
        assert s[2 * i + 3] == d[2 * (i - 8)] && s[2 * i + 4] == d[2 * (i - 8) + 1];
      } else {
        assert s[2 * i + 4] == e[2 * (i - 10)] && s[2 * i + 5] == e[2 * (i - 10) + 1];
      }
    }
  }

  /** The client's identity: the last 16 octets of the last option 61, or without any of the last
      option 97, if it is 17 octets long. */
  lemma UuidIs(buf: bytes, items: seq<Item>, rest: bytes)
    requires Spells(buf, items, rest)
    ensures Parse(buf).Parsed?
    ensures var p := Parse(buf).packet;
            var id := if LastOf(items, 61).Some? then LastOf(items, 61) else LastOf(items, 97);
            && (p.clientUUID.Some? <==> id.Some? && |id.value| == 17)
            && (p.clientUUID.Some? ==> IsUuidText(p.clientUUID.value, id.value[1..]))
  {
    hide Collect, LastOf, HexText, IsUuidText;
    SpelledIsParsed(buf, items, rest);
    CollectedIsLast(items, 61);
    CollectedIsLast(items, 97);
    var id := if LastOf(items, 61).Some? then LastOf(items, 61) else LastOf(items, 97);
    if id.Some? && |id.value| == 17 {
      UuidTextIs(id.value[1..]);
    }
  }

  // ---- Option lists of the server's making ---------------------------------------------------

  /** What an option list is to a reader: an option with code 0 is a bare pad. */
  function ItemsOf(options: seq<RawOption>): seq<Item> {
    seq(|options|, i requires 0 <= i < |options| =>
      if options[i].code == 0 then Pad else Tlv(options[i].code, options[i].data))
  }

  /** Any list of options of at most 255 octets, pads among them, is read as it was given, up to
      the End option, 255, behind it. */
  lemma EncodedIsRead(options: seq<RawOption>)
    requires forall i :: 0 <= i < |options| ==> options[i].code != 255 && (options[i].code == 0 || |options[i].data| < 256)
    ensures ParseItems(OptionList(options)) == (ItemsOf(options), [255])
  {
    ListSpells(options);
    ReadsOneWay(OptionList(options), ItemsOf(options), [255]);
  }

  lemma {:induction false} ListSpells(options: seq<RawOption>)
    requires forall i :: 0 <= i < |options| ==> options[i].code != 255 && (options[i].code == 0 || |options[i].data| < 256)
    ensures Reads(OptionList(options), ItemsOf(options), [255])
    decreases |options|
  {
    if options == [] {
      EndSpells();
    } else {
      hide Reads, OptionBytes, ItemBytes, ValidItem, ItemsOf;
      var x := if options[0].code == 0 then Pad else Tlv(options[0].code, options[0].data);
      var tail, items := OptionList(options[1..]), ItemsOf(options[1..]);
      ListSpells(options[1..]);
      OptionSpelt(options[0], x);
      ReadsCons(OptionBytes(options[0]) + tail, x, tail, items, [255]);
      ItemsCons(options);
    }
  }

  lemma ItemsCons(options: seq<RawOption>)
    requires options != []
    ensures ItemsOf(options) ==
            [if options[0].code == 0 then Pad else Tlv(options[0].code, options[0].data)] + ItemsOf(options[1..])
  {
  }

  lemma EndSpells()
    ensures Reads(OptionList([]), ItemsOf([]), [255])
  {
    assert ItemsOf([]) == [];
  }

  lemma OptionSpelt(o: RawOption, x: Item)
    requires o.code != 255 && (o.code == 0 || |o.data| < 256) && x == if o.code == 0 then Pad else Tlv(o.code, o.data)
    ensures ValidItem(x) && OptionBytes(o) == ItemBytes(x)
  {
  }
}
