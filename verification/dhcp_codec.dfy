/** DHCP packets on the wire: src/dhcp/protocol.mts. */
module DhcpCodec {
  import opened Bytes
  import opened Buffers
  import opened DhcpPackets
  import opened Encoding
  import Ascii
  import Decimal
  import Hex

  const MAGIC_COOKIE: nat := 0x63825363
  const FIXED_SIZE: nat := 236
  const MIN_PACKET_SIZE: nat := 240

  const SUBNET_MASK: byte := 1
  const ROUTER: byte := 3
  const DNS: byte := 6
  const REQUESTED_IP: byte := 50
  const LEASE_TIME: byte := 51
  const MESSAGE_TYPE: byte := 53
  const SERVER_ID: byte := 54
  const VENDOR_CLASS_ID: byte := 60
  const CLIENT_UUID: byte := 61
  const CLIENT_ARCH: byte := 93
  const CLIENT_UUID2: byte := 97
  const HOSTNAME: byte := 12

  // ---- Parsing -----------------------------------------------------------------------------

  datatype ParseResult = Parsed(packet: Packet) | TooShort(length: nat) | BadCookie(cookie: nat)

  /** The replacement that takes the NULs off the end. */
  function StripNuls(s: string): string
    decreases |s|
  {
    if s != "" && s[|s| - 1] == '\0' then StripNuls(s[..|s| - 1]) else s
  }

  function Text(b: bytes): string {
    StripNuls(Ascii.Decode(b))
  }

  function AddressOption(options: Options, code: byte): Option<IPv4> {
    if code in options && |options[code]| == 4 then Some(ReadIPv4(options[code])) else None
  }

  function TypeOption(options: Options): Option<nat> {
    if MESSAGE_TYPE in options && options[MESSAGE_TYPE] != [] then Some(options[MESSAGE_TYPE][0]) else None
  }

  predicate IsPXE(options: Options) {
    VENDOR_CLASS_ID in options && "PXEClient" <= Ascii.Decode(options[VENDOR_CLASS_ID])
  }

  function HexText(b: bytes): string {
    if b == [] then "" else Hex.Print(b[0]) + HexText(b[1..])
  }

  /** Option 61, or 97 if there is no 61: a type octet and the 16 octets of a UUID. */
  function UuidOption(options: Options): Option<string> {
    var code := if CLIENT_UUID in options then CLIENT_UUID else CLIENT_UUID2;
    if code in options && |options[code]| == 17 then
      var u := options[code][1..];
      Some(HexText(u[..4]) + "-" + HexText(u[4..6]) + "-" + HexText(u[6..8]) + "-" + HexText(u[8..10]) + "-" + HexText(u[10..]))
    else None
  }

  function ArchOption(options: Options): Option<nat> {
    if CLIENT_ARCH in options && |options[CLIENT_ARCH]| >= 2 then Some(ReadU16(options[CLIENT_ARCH])) else None
  }

  /** trim(): without the white space at both ends. */
  function Trim(s: string): string
    decreases |s|
  {
    if s != "" && Decimal.IsSpace(s[0]) then Trim(s[1..])
    else if s != "" && Decimal.IsSpace(s[|s| - 1]) then Trim(s[..|s| - 1])
    else s
  }

  function HostnameOption(options: Options): Option<string> {
    if HOSTNAME in options && options[HOSTNAME] != [] then Some(Trim(Ascii.Decode(options[HOSTNAME]))) else None
  }

  function ParseHead(buf: bytes, options: Options): Packet
    requires |buf| >= MIN_PACKET_SIZE
  {
    Packet(
      buf[0], buf[1], buf[2], buf[3],
      ReadU32(buf[4..8]), ReadU16(buf[8..10]), ReadU16(buf[10..12]),
      ReadIPv4(buf[12..16]), ReadIPv4(buf[16..20]), ReadIPv4(buf[20..24]), ReadIPv4(buf[24..28]),
      ReadMAC(buf[28..34]),
      Text(buf[44..108]), Text(buf[108..236]),
      options,
      TypeOption(options),
      IsPXE(options),
      AddressOption(options, REQUESTED_IP),
      UuidOption(options),
      ArchOption(options),
      HostnameOption(options),
      AddressOption(options, SERVER_ID))
  }

  function Parse(buf: bytes): ParseResult {
    if |buf| < MIN_PACKET_SIZE then TooShort(|buf|)
    else if ReadU32(buf[236..240]) != MAGIC_COOKIE then BadCookie(ReadU32(buf[236..240]))
    else Parsed(ParseHead(buf, ParsedOptions(buf[240..])))
  }

  method ParseDHCPPacket(buf: bytes) returns (result: ParseResult)
    ensures result == Parse(buf)
  {
    hide ParseHead, ParsedOptions, ReadU32;
    if |buf| < MIN_PACKET_SIZE {
      return TooShort(|buf|);
    }
    var cookie := ReadU32(buf[236..240]);
    if cookie != MAGIC_COOKIE {
      return BadCookie(cookie);
    }
    var options := ParseOptions(buf, FIXED_SIZE + 4, |buf| - FIXED_SIZE - 4);
    assert buf[240..240 + (|buf| - 240)] == buf[240..];
    result := Parsed(ParseHead(buf, options));
  }

  // ---- Encoding ----------------------------------------------------------------------------

  /** The 128 octets of the file field: a longer name is cut off. */
  function FileField(bootFile: string): (b: bytes)
    ensures |b| == 128
  {
    var text := Ascii.Encode(bootFile);
    if |text| >= 128 then text[..128] else text + Zeros(128 - |text|)
  }

  /** The fixed part of a reply and the magic cookie. */
  function HeadFields(xid: nat, flags: nat, ci: bytes, yi: bytes, si: bytes, gi: bytes, mac: bytes, file: bytes): seq<bytes>
    requires xid < 0x1_0000_0000 && flags < 0x1_0000
  {
    [[2, 1, 6, 0], U32(xid), U16(0), U16(flags), ci, yi, si, gi, mac, Zeros(74), file, U32(MAGIC_COOKIE)]
  }

  const HEAD_OFFSETS: seq<int> := [0, 4, 8, 10, 12, 16, 20, 24, 28, 34, 108, 236, 240]

  function DnsFields(dns: seq<IPv4>): seq<bytes> {
    seq(|dns|, i requires 0 <= i < |dns| => IPv4Bytes(dns[i]))
  }

  function DnsBytes(dns: seq<IPv4>): bytes {
    Concat(DnsFields(dns))
  }

  /** What a reply is made of besides the request. */
  datatype Terms = Terms(
    serverIP: IPv4,
    tftpServerIP: IPv4,
    bootFile: string,
    subnetMask: IPv4,
    router: IPv4,
    leaseTime: nat,
    dnsServers: seq<IPv4>)

  function ReplyOptions(terms: Terms, replyType: byte): seq<RawOption>
    requires terms.leaseTime < 0x1_0000_0000
  {
    [RawOption(MESSAGE_TYPE, [replyType]),
     RawOption(LEASE_TIME, U32(terms.leaseTime)),
     RawOption(SUBNET_MASK, IPv4Bytes(terms.subnetMask)),
     RawOption(ROUTER, IPv4Bytes(terms.router)),
     RawOption(SERVER_ID, IPv4Bytes(terms.serverIP))]
    + if terms.dnsServers == [] then [] else [RawOption(DNS, DnsBytes(terms.dnsServers))]
  }

  predicate Encodable(xid: nat, leaseTime: nat) {
    xid < 0x1_0000_0000 && leaseTime < 0x1_0000_0000
  }

  function ReplyFields(request: Packet, offeredIP: IPv4, terms: Terms): seq<bytes>
    requires Encodable(request.xid, terms.leaseTime)
  {
    HeadFields(request.xid, 0, IPv4Bytes(request.ciaddr), IPv4Bytes(offeredIP), IPv4Bytes(terms.tftpServerIP),
               IPv4Bytes("0.0.0.0"), MacBytes(request.chaddr), FileField(terms.bootFile))
  }

  function Reply(request: Packet, offeredIP: IPv4, terms: Terms, replyType: byte): bytes
    requires Encodable(request.xid, terms.leaseTime)
  {
    Concat(ReplyFields(request, offeredIP, terms)) + OptionList(ReplyOptions(terms, replyType))
  }

  function NakFields(request: Packet): seq<bytes>
    requires request.xid < 0x1_0000_0000
  {
    HeadFields(request.xid, 0x8000, Zeros(4), Zeros(4), Zeros(4), Zeros(4), MacBytes(request.chaddr), Zeros(128))
  }

  function NakOptions(serverIP: IPv4): seq<RawOption> {
    [RawOption(MESSAGE_TYPE, [NAK]), RawOption(SERVER_ID, IPv4Bytes(serverIP))]
  }

  function NakReply(request: Packet, serverIP: IPv4): bytes
    requires request.xid < 0x1_0000_0000
  {
    Concat(NakFields(request)) + OptionList(NakOptions(serverIP))
  }

  /** None stands for the exception that a number too large for its field throws. */
  method EncodeDHCPReply(request: Packet, offeredIP: IPv4, terms: Terms, replyType: byte) returns (reply: Option<bytes>)
    ensures reply.Some? <==> Encodable(request.xid, terms.leaseTime)
    ensures reply.Some? ==> reply.value == Reply(request, offeredIP, terms, replyType)
  {
    if request.xid >= 0x1_0000_0000 || terms.leaseTime >= 0x1_0000_0000 {
      return None;
    }
    var fixed := WriteReplyHead(request, offeredIP, terms);
    var options := [
      RawOption(MESSAGE_TYPE, [replyType]),
      RawOption(LEASE_TIME, U32(terms.leaseTime)),
      RawOption(SUBNET_MASK, IPv4Bytes(terms.subnetMask)),
      RawOption(ROUTER, IPv4Bytes(terms.router)),
      RawOption(SERVER_ID, IPv4Bytes(terms.serverIP))];
    if |terms.dnsServers| > 0 {
      var dnsBuf := WriteDns(terms.dnsServers);
      options := options + [RawOption(DNS, dnsBuf)];
    }
    assert options == ReplyOptions(terms, replyType);
    var optionsBuf := EncodeOptions(options);
    reply := Some(fixed + optionsBuf);
  }

  method WriteDns(dns: seq<IPv4>) returns (b: bytes)
    ensures b == DnsBytes(dns)
  {
    hide IPv4Bytes, Splice, Filled, Concat;
    var dnsBuf := new byte[|dns| * 4](_ => 0);
    ghost var f := DnsFields(dns);
    AllZeros(dnsBuf[..], f);
    for i := 0 to |dns|
      invariant Filled(dnsBuf[..], f[..i]) && |Concat(f[..i])| == i * 4
    {
      FillNext(dnsBuf[..], i * 4, f, i);
      WriteIPv4(dnsBuf, i * 4, dns[i]);
    }
    AllFilled(dnsBuf[..], f);
    b := dnsBuf[..];
  }

  method WriteReplyHead(request: Packet, offeredIP: IPv4, terms: Terms) returns (head: bytes)
    requires Encodable(request.xid, terms.leaseTime)
    ensures head == Concat(ReplyFields(request, offeredIP, terms))
  {
    hide IPv4Bytes, MacBytes, U16, U32, Splice, Filled, Concat, FileField;
    var fixed := new byte[FIXED_SIZE](_ => 0);
    ghost var f := ReplyFields(request, offeredIP, terms);
    AllZeros(fixed[..], f);
    WriteField(fixed, 0, [2, 1, 6, 0], f, 0);
    FillNext(fixed[..], 4, f, 1);
    WriteU32(fixed, 4, request.xid);
    WriteField(fixed, 8, U16(0), f, 2);
    WriteField(fixed, 10, U16(0), f, 3);
    FillNext(fixed[..], 12, f, 4);
    WriteIPv4(fixed, 12, request.ciaddr);
    FillNext(fixed[..], 16, f, 5);
    WriteIPv4(fixed, 16, offeredIP);
    FillNext(fixed[..], 20, f, 6);
    WriteIPv4(fixed, 20, terms.tftpServerIP);
    FillNext(fixed[..], 24, f, 7);
    WriteIPv4(fixed, 24, "0.0.0.0");
    FillNext(fixed[..], 28, f, 8);
    WriteMAC(fixed, 28, request.chaddr);
    ZerosNext(fixed[..], f, 9, 74);
    WriteFile(fixed, terms.bootFile, f);
    head := fixed[..] + U32(MAGIC_COOKIE);
    LastField(fixed[..], f, 11);
  }

  /** The boot file's name is copied as far as it fits; behind it the buffer stays zero. */
  method WriteFile(fixed: array<byte>, bootFile: string, ghost f: seq<bytes>)
    requires fixed.Length == FIXED_SIZE && |f| > 10 && f[10] == FileField(bootFile)
    requires Filled(fixed[..], f[..10]) && |Concat(f[..10])| == 108
    modifies fixed
    ensures Filled(fixed[..], f[..11]) && |Concat(f[..11])| == 236
  {
    hide Filled, Concat;
    ghost var was := fixed[..];
    FillNext(was, 108, f, 10);
    var fileBuf := Ascii.Encode(bootFile);
    var n := Min(|fileBuf|, 128);
    assert was[108..] == Zeros(128) by { RestIsZero(was, f[..10]); }
    Copy(fixed, 108, fileBuf[..n]);
    assert Splice(was, 108, fileBuf[..n]) == Splice(was, 108, FileField(bootFile)) by {
      assert was[108 + n..] == Zeros(128 - n) by { assert was[108 + n..] == was[108..][n..]; }
    }
  }

  method EncodeDHCPNAK(request: Packet, serverIP: IPv4) returns (reply: Option<bytes>)
    ensures reply.Some? <==> request.xid < 0x1_0000_0000
    ensures reply.Some? ==> reply.value == NakReply(request, serverIP)
  {
    if request.xid >= 0x1_0000_0000 {
      return None;
    }
    var fixed := WriteNakHead(request);
    var optionsBuf := EncodeOptions(NakOptions(serverIP));
    reply := Some(fixed + optionsBuf);
  }

  /** Only the client's MAC address is written: all IP fields stay zero. */
  method WriteNakHead(request: Packet) returns (head: bytes)
    requires request.xid < 0x1_0000_0000
    ensures head == Concat(NakFields(request))
  {
    hide MacBytes, U16, U32, Splice, Filled, Concat, Zeros;
    var fixed := new byte[FIXED_SIZE](_ => 0);
    ghost var f := NakFields(request);
    AllZeros(fixed[..], f);
    WriteField(fixed, 0, [2, 1, 6, 0], f, 0);
    FillNext(fixed[..], 4, f, 1);
    WriteU32(fixed, 4, request.xid);
    WriteField(fixed, 8, U16(0), f, 2);
    WriteField(fixed, 10, U16(0x8000), f, 3);
    ZerosNext(fixed[..], f, 4, 4);
    ZerosNext(fixed[..], f, 5, 4);
    ZerosNext(fixed[..], f, 6, 4);
    ZerosNext(fixed[..], f, 7, 4);
    FillNext(fixed[..], 28, f, 8);
    WriteMAC(fixed, 28, request.chaddr);
    ZerosNext(fixed[..], f, 9, 74);
    ZerosNext(fixed[..], f, 10, 128);
    head := fixed[..] + U32(MAGIC_COOKIE);
    LastField(fixed[..], f, 11);
  }

  // ---- Round trips -------------------------------------------------------------------------

  /** A head parses back field by field, whatever options follow. */
  lemma HeadParses(xid: nat, flags: nat, ci: bytes, yi: bytes, si: bytes, gi: bytes, mac: bytes, file: bytes, tail: bytes)
    requires xid < 0x1_0000_0000 && flags < 0x1_0000
    requires |ci| == |yi| == |si| == |gi| == 4 && |mac| == 6 && |file| == 128
    ensures var buf := Concat(HeadFields(xid, flags, ci, yi, si, gi, mac, file)) + tail;
            Parse(buf) == Parsed(HeadPacket(xid, flags, ci, yi, si, gi, mac, file, ParsedOptions(tail)))
  {
    hide U16, U32, ReadU16, ReadU32, ReadIPv4, ReadMAC, Text, Zeros, ParsedOptions, Concat;
    var f := HeadFields(xid, flags, ci, yi, si, gi, mac, file);
    var buf := Concat(f) + tail;
    assert Offsets(f, HEAD_OFFSETS);
    ConcatLength(f, HEAD_OFFSETS);
    forall i | 0 <= i < 12 ensures buf[HEAD_OFFSETS[i]..HEAD_OFFSETS[i + 1]] == f[i] {
      FieldAt(f, HEAD_OFFSETS, tail, i);
    }
    HeadFieldsRead(buf, f);
    assert buf[240..] == tail;
    NumbersRoundTrip(0, xid);
    NumbersRoundTrip(flags, MAGIC_COOKIE);
    NumbersRoundTrip(0, 0);
    SnameIsEmpty(buf);
  }

  function HeadPacket(xid: nat, flags: nat, ci: bytes, yi: bytes, si: bytes, gi: bytes, mac: bytes, file: bytes,
                      options: Options): Packet
    requires |ci| == |yi| == |si| == |gi| == 4 && |mac| == 6
  {
    Packet(2, 1, 6, 0, xid, 0, flags, ReadIPv4(ci), ReadIPv4(yi), ReadIPv4(si), ReadIPv4(gi), ReadMAC(mac), "",
           Text(file), options,
           TypeOption(options),
           IsPXE(options),
           AddressOption(options, REQUESTED_IP), UuidOption(options), ArchOption(options), HostnameOption(options),
           AddressOption(options, SERVER_ID))
  }

  lemma HeadFieldsRead(buf: bytes, f: seq<bytes>)
    requires |f| == 12 && |buf| >= 240
    requires forall i :: 0 <= i < 12 ==> buf[HEAD_OFFSETS[i]..HEAD_OFFSETS[i + 1]] == f[i]
    ensures buf[0..4] == f[0] && buf[4..8] == f[1] && buf[8..10] == f[2] && buf[10..12] == f[3]
    ensures buf[12..16] == f[4] && buf[16..20] == f[5] && buf[20..24] == f[6] && buf[24..28] == f[7]
    ensures buf[28..34] == f[8] && buf[34..108] == f[9] && buf[108..236] == f[10] && buf[236..240] == f[11]
  {
    var o := HEAD_OFFSETS;
    assert o[0] == 0 && o[1] == 4 && o[2] == 8 && o[3] == 10 && o[4] == 12 && o[5] == 16 && o[6] == 20;
    assert o[7] == 24 && o[8] == 28 && o[9] == 34 && o[10] == 108 && o[11] == 236 && o[12] == 240;
  }

  lemma SnameIsEmpty(buf: bytes)
    requires |buf| >= 240 && buf[34..108] == Zeros(74)
    ensures Text(buf[44..108]) == ""
  {
    assert buf[44..108] == buf[34..108][10..];
    assert buf[44..108] == Zeros(64);
    TextPads("", 64);
    assert Ascii.Encode("") + Zeros(64) == Zeros(64);
  }

  lemma {:induction false} StripsNuls(s: string, t: string)
    requires forall i :: 0 <= i < |t| ==> t[i] == '\0'
    ensures StripNuls(s + t) == StripNuls(s)
    decreases |t|
  {
    if t == "" {
      assert s + t == s;
    } else {
      StripsNuls(s, t[..|t| - 1]);
      assert (s + t)[..|s + t| - 1] == s + t[..|t| - 1];
    }
  }

  lemma {:induction false} StripNulsIs(s: string)
    ensures StripNuls(s) == s <==> s == "" || s[|s| - 1] != '\0'
    ensures |StripNuls(s)| <= |s|
    ensures var r := StripNuls(s); r == "" || r[|r| - 1] != '\0'
    ensures StripNuls(s) <= s
    decreases |s|
  {
    if s != "" && s[|s| - 1] == '\0' {
      StripNulsIs(s[..|s| - 1]);
    }
  }

  lemma TextPads(s: string, n: nat)
    ensures Text(Ascii.Encode(s) + Zeros(n)) == StripNuls(Ascii.Decode(Ascii.Encode(s)))
  {
    var t := Ascii.Decode(Zeros(n));
    assert Ascii.Decode(Ascii.Encode(s) + Zeros(n)) == Ascii.Decode(Ascii.Encode(s)) + t;
    StripsNuls(Ascii.Decode(Ascii.Encode(s)), t);
  }

  /** A boot file's name survives exactly when it fits, is seven-bit and does not end in NUL. */
  lemma FileRoundTrip(s: string)
    ensures Text(FileField(s)) == s <==> |s| <= 128 && Ascii.SevenBit(s) && (s == "" || s[|s| - 1] != '\0')
  {
    hide Ascii.Encode, Ascii.Decode, StripNuls, Zeros;
    Ascii.DecodeEncode(s);
    StripNulsIs(s);
    StripNulsIs(Ascii.Decode(FileField(s)));
    if |s| <= 128 {
      assert Ascii.Encode(s)[..|s|] == Ascii.Encode(s);
      assert Ascii.Encode(s) + Zeros(0) == Ascii.Encode(s);
      TextPads(s, 128 - |s|);
    }
    if Text(FileField(s)) == s {
      DecodedIsSevenBit(FileField(s));
    }
  }

  lemma DecodedIsSevenBit(b: bytes)
    ensures Ascii.SevenBit(Text(b))
  {
    StripNulsIs(Ascii.Decode(b));
  }

  // ---- The options of a reply --------------------------------------------------------------

  predicate Readable(o: RawOption) {
    o.code != PAD && o.code != END && |o.data| < 256
  }

  function Items(options: seq<RawOption>): seq<Item> {
    seq(|options|, i requires 0 <= i < |options| => Tlv(options[i].code, options[i].data))
  }

  /** A list of options whose lengths fit an octet reads back as itself, up to its End. */
  lemma OptionsRead(options: seq<RawOption>)
    requires forall i :: 0 <= i < |options| ==> Readable(options[i])
    ensures ParseItems(OptionList(options)) == (Items(options), [END])
  {
    OptionsSpelled(options);
    ReadsOneWay(OptionList(options), Items(options), [END]);
  }

  lemma {:induction false} OptionsSpelled(options: seq<RawOption>)
    requires forall i :: 0 <= i < |options| ==> Readable(options[i])
    ensures forall i :: 0 <= i < |Items(options)| ==> ValidItem(Items(options)[i])
    ensures OptionList(options) == Spelled(Items(options)) + [END]
    decreases |options|
  {
    ItemsValid(options);
    if options != [] {
      hide OptionBytes, ItemBytes, ValidItem;
      var items := Items(options);
      OptionsSpelled(options[1..]);
      assert items[1..] == Items(options[1..]);
      OptionSpelled(options[0]);
      assert OptionList(options) == ItemBytes(items[0]) + (Spelled(items[1..]) + [END]);
      assert Spelled(items) == ItemBytes(items[0]) + Spelled(items[1..]);
    }
  }

  lemma ItemsValid(options: seq<RawOption>)
    requires forall i :: 0 <= i < |options| ==> Readable(options[i])
    ensures forall i :: 0 <= i < |Items(options)| ==> ValidItem(Items(options)[i])
  {
    forall i | 0 <= i < |options| ensures ValidItem(Items(options)[i]) {
      assert Readable(options[i]);
    }
  }

  lemma OptionSpelled(o: RawOption)
    requires Readable(o)
    ensures ValidItem(Tlv(o.code, o.data)) && OptionBytes(o) == ItemBytes(Tlv(o.code, o.data))
  {
  }

  function ReplyMap(terms: Terms, replyType: byte): Options
    requires terms.leaseTime < 0x1_0000_0000
  {
    var m: Options := map[MESSAGE_TYPE := [replyType], LEASE_TIME := U32(terms.leaseTime),
           SUBNET_MASK := IPv4Bytes(terms.subnetMask), ROUTER := IPv4Bytes(terms.router),
           SERVER_ID := IPv4Bytes(terms.serverIP)];
    if terms.dnsServers == [] then m else m[DNS := DnsBytes(terms.dnsServers)]
  }

  lemma {:induction false} DnsLength(fields: seq<bytes>)
    requires forall i :: 0 <= i < |fields| ==> |fields[i]| == 4
    ensures |Concat(fields)| == 4 * |fields|
    decreases |fields|
  {
    if fields != [] {
      DnsLength(fields[1..]);
    }
  }

  lemma {:induction false} CollectMap(options: seq<RawOption>, m: Options)
    ensures Collect(Items(options), m) == Assigned(options, m)
    decreases |options|
  {
    if options != [] {
      assert Items(options)[1..] == Items(options[1..]);
      CollectMap(options[1..], m[options[0].code := options[0].data]);
    }
  }

  function Assigned(options: seq<RawOption>, m: Options): Options
    decreases |options|
  {
    if options == [] then m else Assigned(options[1..], m[options[0].code := options[0].data])
  }

  /** The reply's options come back, all of them and nothing else, exactly when there are at
      most 63 DNS servers: the length octet holds no more. */
  lemma ReplyOptionsRoundTrip(terms: Terms, replyType: byte)
    requires terms.leaseTime < 0x1_0000_0000
    ensures ParsedOptions(OptionList(ReplyOptions(terms, replyType))) == ReplyMap(terms, replyType)
            <==> |terms.dnsServers| <= 63
  {
    hide U32, IPv4Bytes, OptionList, ParseItems;
    var options := ReplyOptions(terms, replyType);
    DnsLength(DnsFields(terms.dnsServers));
    if |terms.dnsServers| <= 63 {
      OptionsRead(options);
      CollectMap(options, map[]);
      AssignedReply(options, terms, replyType);
    } else {
      ParsedAreShort(OptionList(options), DNS);
    }
  }

  lemma AssignedReply(options: seq<RawOption>, terms: Terms, replyType: byte)
    requires terms.leaseTime < 0x1_0000_0000 && options == ReplyOptions(terms, replyType)
    ensures Assigned(options, map[]) == ReplyMap(terms, replyType)
  {
    hide U32, IPv4Bytes, DnsBytes;
    var o1 := options[1..];
    var o2, m1 := o1[1..], map[options[0].code := options[0].data];
    var o3, m2 := o2[1..], m1[o1[0].code := o1[0].data];
    var o4, m3 := o3[1..], m2[o2[0].code := o2[0].data];
    var o5, m4 := o4[1..], m3[o3[0].code := o3[0].data];
    var m5 := m4[o4[0].code := o4[0].data];
    assert Assigned(options, map[]) == Assigned(o1, m1) == Assigned(o2, m2) == Assigned(o3, m3);
    assert Assigned(o3, m3) == Assigned(o4, m4) == Assigned(o5, m5);
    if terms.dnsServers == [] {
      assert o5 == [];
    } else {
      assert o5 == [RawOption(DNS, DnsBytes(terms.dnsServers))] && o5[1..] == [];
      assert Assigned(o5, m5) == Assigned(o5[1..], m5[o5[0].code := o5[0].data]) == m5[DNS := DnsBytes(terms.dnsServers)];
    }
  }

  /** No option that was read has more than 255 octets. */
  lemma ParsedAreShort(buf: bytes, code: byte)
    ensures code in ParsedOptions(buf) ==> |ParsedOptions(buf)[code]| < 256
  {
    var items, rest := ParseItems(buf).0, ParseItems(buf).1;
    ReadsOneWay(buf, items, rest);
    CollectShort(items, map[], code);
  }

  lemma {:induction false} CollectShort(items: seq<Item>, m: Options, code: byte)
    requires forall i :: 0 <= i < |items| ==> ValidItem(items[i])
    requires code in m ==> |m[code]| < 256
    ensures code in Collect(items, m) ==> |Collect(items, m)[code]| < 256
    decreases |items|
  {
    if items != [] {
      CollectShort(items[1..], if items[0].Tlv? then m[items[0].code := items[0].data] else m, code);
    }
  }

  /** What the receiver of an OFFER or ACK reads: each address and name exactly when it is
      written in the usual way, and all the options exactly when the DNS servers fit. */
  lemma ReplyRoundTrip(request: Packet, offeredIP: IPv4, terms: Terms, replyType: byte)
    requires Encodable(request.xid, terms.leaseTime)
    ensures Parse(Reply(request, offeredIP, terms, replyType)).Parsed?
    ensures var p := Parse(Reply(request, offeredIP, terms, replyType)).packet;
            && p.op == 2 && p.xid == request.xid && p.flags == 0 && p.giaddr == "0.0.0.0" && p.sname == ""
            && (p.ciaddr == request.ciaddr <==> CanonicalIPv4(request.ciaddr))
            && (p.yiaddr == offeredIP <==> CanonicalIPv4(offeredIP))
            && (p.siaddr == terms.tftpServerIP <==> CanonicalIPv4(terms.tftpServerIP))
            && (p.chaddr == request.chaddr <==> CanonicalMac(request.chaddr))
            && (p.file == terms.bootFile <==>
                |terms.bootFile| <= 128 && Ascii.SevenBit(terms.bootFile)
                && (terms.bootFile == "" || terms.bootFile[|terms.bootFile| - 1] != '\0'))
            && (p.options == ReplyMap(terms, replyType) <==> |terms.dnsServers| <= 63)
            && (|terms.dnsServers| <= 63 ==>
                  && p.messageType == Some(replyType) && !p.isPXE
                  && (p.serverID == Some(terms.serverIP) <==> CanonicalIPv4(terms.serverIP)))
  {
    hide Concat, HeadFields, OptionList, ParsedOptions, Text, FileField, IPv4Bytes, ReadIPv4, MacBytes, ReadMAC,
         CanonicalIPv4, CanonicalMac, U32;
    var options := OptionList(ReplyOptions(terms, replyType));
    HeadParses(request.xid, 0, IPv4Bytes(request.ciaddr), IPv4Bytes(offeredIP), IPv4Bytes(terms.tftpServerIP),
               IPv4Bytes("0.0.0.0"), MacBytes(request.chaddr), FileField(terms.bootFile), options);
    IPv4RoundTrip(request.ciaddr);
    IPv4RoundTrip(offeredIP);
    IPv4RoundTrip(terms.tftpServerIP);
    IPv4RoundTrip(terms.serverIP);
    ZerosAreCanonical();
    MacRoundTrip(request.chaddr);
    FileRoundTrip(terms.bootFile);
    ReplyOptionsRoundTrip(terms, replyType);
  }

  lemma ZerosAreCanonical()
    ensures ReadIPv4(Zeros(4)) == "0.0.0.0" && ReadIPv4(IPv4Bytes("0.0.0.0")) == "0.0.0.0"
  {
    assert Zeros(4)[0] == 0 && Zeros(4)[1] == 0 && Zeros(4)[2] == 0 && Zeros(4)[3] == 0;
    assert ReadIPv4(Zeros(4)) == "0.0.0.0";
    ReadIsCanonical(Zeros(4));
  }

  /** A NAK carries the client's transaction and MAC address, and no address to use. */
  lemma NakRoundTrip(request: Packet, serverIP: IPv4)
    requires request.xid < 0x1_0000_0000
    ensures Parse(NakReply(request, serverIP)).Parsed?
    ensures var p := Parse(NakReply(request, serverIP)).packet;
            && p.messageType == Some(NAK) && p.xid == request.xid && p.flags == 0x8000
            && p.ciaddr == p.yiaddr == p.siaddr == p.giaddr == "0.0.0.0" && p.file == ""
            && (p.chaddr == request.chaddr <==> CanonicalMac(request.chaddr))
            && (p.serverID == Some(serverIP) <==> CanonicalIPv4(serverIP))
            && p.options == map[MESSAGE_TYPE := [NAK], SERVER_ID := IPv4Bytes(serverIP)]
  {
    hide Concat, HeadFields, OptionList, ParseItems, Text, IPv4Bytes, ReadIPv4, MacBytes, ReadMAC,
         CanonicalIPv4, CanonicalMac, U32, Zeros;
    var options := NakOptions(serverIP);
    HeadParses(request.xid, 0x8000, Zeros(4), Zeros(4), Zeros(4), Zeros(4), MacBytes(request.chaddr), Zeros(128),
               OptionList(options));
    OptionsRead(options);
    CollectMap(options, map[]);
    var o1, m1: Options := options[1..], map[MESSAGE_TYPE := [NAK]];
    assert o1[1..] == [] && Assigned(options, map[]) == Assigned(o1, m1);
    assert Assigned(o1, m1) == Assigned(o1[1..], m1[o1[0].code := o1[0].data]) == m1[SERVER_ID := IPv4Bytes(serverIP)];
    var m := ParsedOptions(OptionList(options));
    assert m == map[MESSAGE_TYPE := [NAK], SERVER_ID := IPv4Bytes(serverIP)];
    assert m[MESSAGE_TYPE] == [NAK] && TypeOption(m) == Some(NAK);
    IPv4RoundTrip(serverIP);
    ZerosAreCanonical();
    MacRoundTrip(request.chaddr);
    NoFile();
  }

  lemma NoFile()
    ensures Text(Zeros(128)) == ""
  {
    TextPads("", 128);
    assert Ascii.Encode("") + Zeros(128) == Zeros(128);
  }
}
