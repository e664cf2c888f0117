/** The TFTP packet codec: src/tftp/protocol.mts.

    The functions say what the octets of a packet are and what a buffer parses to; the
    methods write and read buffers the way the code does. */
module TftpCodec {
  import opened Bytes
  import opened Ascii
  import opened Buffers
  import opened Options
  import opened Transfer

  const RRQ: nat := 1
  const WRQ: nat := 2
  const DATA: nat := 3
  const ACK: nat := 4
  const ERROR: nat := 5
  const OACK: nat := 6

  const OPCODE_LEN: nat := 2
  const BLOCKNUM_LEN: nat := 2

  lemma ReadU16Of(n: nat, rest: bytes)
    requires n < 0x10000
    ensures ReadU16(U16(n) + rest) == n && (U16(n) + rest)[2..] == rest
  {
  }

  // ---- Writing -------------------------------------------------------------------------

  function NullString(s: string): bytes {
    Ascii.Encode(s) + [0]
  }

  function OptionPairs(raw: RawOptions): bytes {
    if raw == [] then [] else NullString(raw[0].key) + NullString(raw[0].value) + OptionPairs(raw[1..])
  }

  function RequestBytes(opcode: nat, filename: string, mode: string, raw: RawOptions): bytes
    requires opcode < 0x10000
  {
    U16(opcode) + NullString(filename) + NullString(mode) + OptionPairs(raw)
  }

  function DefaultMessage(code: nat): string {
    match code
    case 0 => "Not defined, see error message (if any)."
    case 1 => "File not found."
    case 2 => "Access violation."
    case 3 => "Disk full or allocation exceeded."
    case 4 => "Illegal TFTP operation."
    case 5 => "Unknown transfer ID."
    case 6 => "File already exists."
    case 7 => "No such user."
    case _ => "Option negotiation failed."
  }

  /** The octets of a packet whose numbers fit their fields. */
  function PacketBytes(p: Packet): bytes
    requires Fits(p)
  {
    match p
    case Rrq(f, m, o) => RequestBytes(RRQ, f, m, o)
    case Wrq(f, m, o) => RequestBytes(WRQ, f, m, o)
    case Data(n, data) => U16(DATA) + U16(n) + data
    case Ack(n) => U16(ACK) + U16(n)
    case Err(code, message) => U16(ERROR) + U16(code) + NullString(message)
    case Oack(o) => U16(OACK) + OptionPairs(o)
  }

  predicate Fits(p: Packet) {
    match p
    case Data(n, _) => n < 0x10000
    case Ack(n) => n < 0x10000
    case Err(code, _) => code < 0x10000
    case _ => true
  }

  /** Writes `s` and a NUL at `offset`, and nothing else. */
  method WriteNullString(buf: array<byte>, offset: nat, s: string) returns (next: nat)
    requires offset + |s| + 1 <= buf.Length
    modifies buf
    ensures next == offset + |s| + 1
    ensures buf[..] == Splice(old(buf[..]), offset, NullString(s))
  {
    hide Splice;
    ghost var was, coded := buf[..], Ascii.Encode(s);
    SpliceNothing(was, offset);
    assert coded[..0] == [];
    for i := 0 to |s|
      invariant buf[..] == Splice(was, offset, coded[..i])
    {
      ghost var mid := buf[..];
      buf[offset + i] := ByteOf(s[i]);
      assert buf[..] == mid[offset + i := coded[i]] && coded[..i + 1] == coded[..i] + [coded[i]];
      SpliceNext(was, offset, coded[..i], coded[i]);
    }
    ghost var mid := buf[..];
    buf[offset + |s|] := 0;
    next := offset + |s| + 1;
    assert buf[..] == mid[offset + |s| := 0] && coded[..|s|] == coded;
    SpliceNext(was, offset, coded, 0);
  }

  method OptionPairsLength(raw: RawOptions) returns (len: nat)
    ensures len == |OptionPairs(raw)|
  {
    len := 0;
    for i := 0 to |raw|
      invariant len + |OptionPairs(raw[i..])| == |OptionPairs(raw)|
    {
      assert raw[i..][1..] == raw[i + 1..];
      len := len + |raw[i].key| + 1;
      len := len + |raw[i].value| + 1;
    }
  }

  /** The octets written so far, and that nothing from `next` on has been touched. */
  ghost predicate Written(now: bytes, was: bytes, offset: nat, text: bytes) {
    && |now| == |was| && offset + |text| <= |was|
    && now == was[..offset] + text + was[offset + |text|..]
  }

  lemma WrittenMore(now: bytes, mid: bytes, was: bytes, offset: nat, text: bytes, more: bytes)
    requires Written(mid, was, offset, text) && Written(now, mid, offset + |text|, more)
    ensures Written(now, was, offset, text + more)
  {
    assert mid[..offset + |text|] == was[..offset] + text;
    assert mid[offset + |text| + |more|..] == was[offset + |text + more|..];
  }

  lemma OptionPairsAppend(raw: RawOptions, e: Entry)
    ensures OptionPairs(raw + [e]) == OptionPairs(raw) + (NullString(e.key) + NullString(e.value))
  {
    if raw == [] {
      assert [e][1..] == [] && raw + [e] == [e];
      assert OptionPairs([e]) == NullString(e.key) + NullString(e.value) + [];
    } else {
      assert (raw + [e])[1..] == raw[1..] + [e];
      OptionPairsAppend(raw[1..], e);
    }
  }

  method WritePair(buf: array<byte>, offset: nat, e: Entry) returns (next: nat)
    requires offset + |e.key| + |e.value| + 2 <= buf.Length
    modifies buf
    ensures next == offset + |e.key| + |e.value| + 2
    ensures Written(buf[..], old(buf[..]), offset, NullString(e.key) + NullString(e.value))
  {
    ghost var was := buf[..];
    next := WriteNullString(buf, offset, e.key);
    ghost var mid := buf[..];
    next := WriteNullString(buf, next, e.value);
    WrittenMore(buf[..], mid, was, offset, NullString(e.key), NullString(e.value));
  }

  method WriteOptionPairs(buf: array<byte>, offset: nat, raw: RawOptions) returns (next: nat)
    requires offset + |OptionPairs(raw)| <= buf.Length
    modifies buf
    ensures next == offset + |OptionPairs(raw)|
    ensures Written(buf[..], old(buf[..]), offset, OptionPairs(raw))
  {
    ghost var was := buf[..];
    next := offset;
    for i := 0 to |raw|
      invariant next == offset + |OptionPairs(raw[..i])|
      invariant Written(buf[..], was, offset, OptionPairs(raw[..i]))
    {
      assert raw[..i + 1] == raw[..i] + [raw[i]];
      OptionPairsAppend(raw[..i], raw[i]);
      PairsPrefix(raw, i + 1);
      ghost var mid := buf[..];
      next := WritePair(buf, next, raw[i]);
      WrittenMore(buf[..], mid, was, offset, OptionPairs(raw[..i]), NullString(raw[i].key) + NullString(raw[i].value));
    }
    assert raw[..|raw|] == raw;
  }

  lemma PairsPrefix(raw: RawOptions, i: nat)
    requires i <= |raw|
    ensures |OptionPairs(raw[..i])| <= |OptionPairs(raw)|
    decreases |raw| - i
  {
    if i < |raw| {
      assert raw[..i + 1] == raw[..i] + [raw[i]];
      OptionPairsAppend(raw[..i], raw[i]);
      PairsPrefix(raw, i + 1);
    } else {
      assert raw[..i] == raw;
    }
  }

  /** A new buffer with the opcode in front. */
  method Allocate(opcode: nat, length: nat) returns (buf: array<byte>)
    requires opcode < 0x10000
    ensures fresh(buf) && buf.Length == OPCODE_LEN + length
    ensures buf[..OPCODE_LEN] == U16(opcode)
  {
    buf := new byte[OPCODE_LEN + length](_ => 0);
    buf[0], buf[1] := opcode / 256, opcode % 256;
  }

  method EncodeRequest(opcode: nat, filename: string, mode: string, raw: RawOptions) returns (buf: array<byte>)
    requires opcode == RRQ || opcode == WRQ
    ensures fresh(buf) && buf[..] == PacketBytes(if opcode == RRQ then Rrq(filename, mode, raw) else Wrq(filename, mode, raw))
  {
    var pairs := OptionPairsLength(raw);
    buf := Allocate(opcode, |filename| + 1 + |mode| + 1 + pairs);
    ghost var was := buf[..];
    var offset := WriteNullString(buf, OPCODE_LEN, filename);
    ghost var one := buf[..];
    offset := WriteNullString(buf, offset, mode);
    ghost var two := buf[..];
    offset := WriteOptionPairs(buf, offset, raw);
    WrittenMore(two, one, was, OPCODE_LEN, NullString(filename), NullString(mode));
    WrittenMore(buf[..], two, was, OPCODE_LEN, NullString(filename) + NullString(mode), OptionPairs(raw));
    assert was[..OPCODE_LEN] == U16(opcode) && was[|was|..] == [];
    assert buf[..] == U16(opcode) + (NullString(filename) + NullString(mode) + OptionPairs(raw));
  }

  method EncodeOACK(raw: RawOptions) returns (buf: array<byte>)
    ensures fresh(buf) && buf[..] == PacketBytes(Oack(raw))
  {
    var pairs := OptionPairsLength(raw);
    buf := Allocate(OACK, pairs);
    ghost var was := buf[..];
    var offset := WriteOptionPairs(buf, OPCODE_LEN, raw);
    assert was[..OPCODE_LEN] == U16(OACK) && was[|was|..] == [];
  }

  method EncodeERROR(code: nat, message: Option<string>) returns (buf: array<byte>)
    requires code < 0x10000
    ensures fresh(buf)
    ensures buf[..] == PacketBytes(Err(code, if message.Some? then message.value else DefaultMessage(code)))
  {
    var msg := if message.Some? then message.value else DefaultMessage(code);
    buf := Allocate(ERROR, BLOCKNUM_LEN + |msg| + 1);
    buf[2], buf[3] := code / 256, code % 256;
    ghost var was := buf[..];
    var offset := WriteNullString(buf, OPCODE_LEN + BLOCKNUM_LEN, msg);
    assert was[..4] == was[..2] + was[2..4] && was[|was|..] == [];
    assert was[..2] == U16(ERROR) && was[2..4] == U16(code);
  }

  method EncodeDATA(block: nat, data: bytes) returns (buf: array<byte>)
    requires block < 0x10000
    ensures fresh(buf) && buf[..] == PacketBytes(Data(block, data))
  {
    buf := Allocate(DATA, BLOCKNUM_LEN + |data|);
    buf[2], buf[3] := block / 256, block % 256;
    forall i | 0 <= i < |data| {
      buf[4 + i] := data[i];
    }
    assert buf[..2] == U16(DATA) && buf[2..4] == U16(block) && buf[4..] == data;
    assert buf[..] == buf[..2] + buf[2..4] + buf[4..];
  }

  method EncodeACK(block: nat) returns (buf: array<byte>)
    requires block < 0x10000
    ensures fresh(buf) && buf[..] == PacketBytes(Ack(block))
  {
    buf := Allocate(ACK, BLOCKNUM_LEN);
    buf[2], buf[3] := block / 256, block % 256;
    assert buf[..2] == U16(ACK) && buf[2..4] == U16(block);
    assert buf[..] == buf[..2] + buf[2..4];
  }

  // ---- Reading -------------------------------------------------------------------------

  datatype ParseResult = Parsed(p: Packet) | Unknown | Malformed(message: string)

  /** The place of the first NUL, or the length. */
  function FirstNul(buf: bytes): (k: nat)
    ensures k <= |buf|
    ensures forall i :: 0 <= i < k ==> buf[i] != 0
    ensures k < |buf| ==> buf[k] == 0
  {
    if buf == [] || buf[0] == 0 then 0 else 1 + FirstNul(buf[1..])
  }

  lemma {:induction false} FirstNulIs(buf: bytes, k: nat)
    requires k <= |buf| && (forall i :: 0 <= i < k ==> buf[i] != 0) && (k < |buf| ==> buf[k] == 0)
    ensures FirstNul(buf) == k
    decreases k
  {
    if k > 0 {
      assert buf[0] != 0;
      FirstNulIs(buf[1..], k - 1);
    }
  }

  /** The NUL-terminated strings of a buffer, and what follows the last NUL if anything. */
  function Split(buf: bytes): seq<string>
    decreases |buf|
  {
    if buf == [] then []
    else
      var k := FirstNul(buf);
      [Decode(buf[..k])] + (if k < |buf| then Split(buf[k + 1..]) else [])
  }

  lemma SplitAtNul(buf: bytes, k: nat)
    requires k < |buf| && buf[k] == 0 && forall i :: 0 <= i < k ==> buf[i] != 0
    ensures Split(buf) == [Decode(buf[..k])] + Split(buf[k + 1..])
  {
    FirstNulIs(buf, k);
  }

  lemma SplitNoNul(buf: bytes)
    requires forall i :: 0 <= i < |buf| ==> buf[i] != 0
    ensures Split(buf) == if buf == [] then [] else [Decode(buf)]
  {
    FirstNulIs(buf, |buf|);
    assert buf[..|buf|] == buf;
  }

  /** `parts` are the strings of buf[..start]. */
  ghost predicate CutSoFar(buf: bytes, parts: seq<string>, start: nat) {
    start <= |buf| && parts + Split(buf[start..]) == Split(buf)
  }

  lemma CutOne(buf: bytes, parts: seq<string>, start: nat, i: nat)
    requires CutSoFar(buf, parts, start)
    requires start <= i < |buf| && buf[i] == 0 && forall j :: start <= j < i ==> buf[j] != 0
    ensures CutSoFar(buf, parts + [Decode(buf[start..i])], i + 1)
  {
    var rest := buf[start..];
    SplitAtNul(rest, i - start);
    assert rest[..i - start] == buf[start..i] && rest[i - start + 1..] == buf[i + 1..];
    var tail := Split(buf[i + 1..]);
    assert (parts + [Decode(buf[start..i])]) + tail == parts + ([Decode(buf[start..i])] + tail);
  }

  lemma CutLast(buf: bytes, parts: seq<string>, start: nat)
    requires CutSoFar(buf, parts, start) && forall j :: start <= j < |buf| ==> buf[j] != 0
    ensures Split(buf) == if start == |buf| then parts else parts + [Decode(buf[start..])]
  {
    SplitNoNul(buf[start..]);
  }

  lemma CutNothing(buf: bytes)
    ensures CutSoFar(buf, [], 0)
  {
    assert buf[0..] == buf;
  }

  method SplitNullStrings(buf: bytes) returns (parts: seq<string>)
    ensures parts == Split(buf)
  {
    parts := [];
    var start := 0;
    CutNothing(buf);
    for i := 0 to |buf|
      invariant 0 <= start <= i
      invariant forall j :: start <= j < i ==> buf[j] != 0
      invariant CutSoFar(buf, parts, start)
    {
      if buf[i] == 0 {
        CutOne(buf, parts, start, i);
        parts := parts + [Decode(buf[start..i])];
        start := i + 1;
      }
    }
    CutLast(buf, parts, start);
    if start < |buf| {
      parts := parts + [Decode(buf[start..])];
    }
  }

  function DropTrailingEmpty(parts: seq<string>): seq<string> {
    if parts != [] && parts[|parts| - 1] == "" then parts[..|parts| - 1] else parts
  }

  /** Pairs of parts as options; names are compared in lower case, unknown ones ignored. */
  function CollectOptions(parts: seq<string>, raw: RawOptions): RawOptions
    requires |parts| % 2 == 0
  {
    if parts == [] then raw
    else
      var key := Lower(parts[0]);
      CollectOptions(parts[2..], if KnownName(key) then Assign(raw, key, parts[1]) else raw)
  }

  method CollectPairs(parts: seq<string>) returns (raw: RawOptions)
    requires |parts| % 2 == 0
    ensures raw == CollectOptions(parts, [])
  {
    raw := [];
    var i := 0;
    assert parts[0..] == parts;
    while i < |parts|
      invariant 0 <= i <= |parts| && i % 2 == 0
      invariant CollectOptions(parts[i..], raw) == CollectOptions(parts, [])
    {
      assert parts[i..][2..] == parts[i + 2..];
      var key := Lower(parts[i]);
      if KnownName(key) {
        raw := Assign(raw, key, parts[i + 1]);
      }
      i := i + 2;
    }
  }

  predicate LegalMode(mode: string) {
    mode == "netascii" || mode == "octet"
  }

  /** A request from its strings. */
  function RequestOf(parts: seq<string>, name: string, write: bool): ParseResult {
    if |parts| < 2 then Malformed(name + " packet too short: missing filename or mode")
    else if parts[0] == "" then Malformed("Empty filename in " + name)
    else
      var mode := Lower(parts[1]);
      if !LegalMode(mode) then Malformed("Unknown transfer mode: " + mode)
      else if |parts[2..]| % 2 != 0 then Malformed("Malformed " + name + " options: odd number of parts")
      else
        var options := CollectOptions(parts[2..], []);
        Parsed(if write then Wrq(parts[0], mode, options) else Rrq(parts[0], mode, options))
  }

  function ParseRequest(payload: bytes, name: string, write: bool): ParseResult {
    RequestOf(DropTrailingEmpty(Split(payload)), name, write)
  }

  function ParseOptionList(payload: bytes): ParseResult {
    if payload == [] then Malformed("OACK packet has no options")
    else
      var parts := DropTrailingEmpty(Split(payload));
      if |parts| % 2 != 0 then Malformed("Malformed option list: odd number of null-terminated parts")
      else Parsed(Oack(CollectOptions(parts, [])))
  }

  function ParsePacket(buf: bytes): ParseResult {
    if |buf| < OPCODE_LEN then Malformed("Packet too short to contain opcode")
    else
      var opcode, payload := ReadU16(buf), buf[OPCODE_LEN..];
      if opcode == RRQ then ParseRequest(payload, "RRQ", false)
      else if opcode == WRQ then ParseRequest(payload, "WRQ", true)
      else if opcode == DATA then
        if |payload| < BLOCKNUM_LEN then Malformed("DATA packet too short: missing block number")
        else Parsed(Data(ReadU16(payload), payload[BLOCKNUM_LEN..]))
      else if opcode == ACK then
        if |payload| < BLOCKNUM_LEN then Malformed("ACK packet too short: missing block number")
        else Parsed(Ack(ReadU16(payload)))
      else if opcode == ERROR then
        if |payload| < BLOCKNUM_LEN then Malformed("ERROR packet too short: missing error code")
        else
          var text := payload[BLOCKNUM_LEN..];
          Parsed(Err(ReadU16(payload), Decode(text[..FirstNul(text)])))
      else if opcode == OACK then ParseOptionList(payload)
      else Unknown
  }

  method ParseRequestPayload(payload: bytes, name: string, write: bool) returns (result: ParseResult)
    ensures result == ParseRequest(payload, name, write)
  {
    var parts := SplitNullStrings(payload);
    parts := DropTrailingEmpty(parts);
    if |parts| < 2 {
      return Malformed(name + " packet too short: missing filename or mode");
    }
    if parts[0] == "" {
      return Malformed("Empty filename in " + name);
    }
    var mode := Lower(parts[1]);
    if !LegalMode(mode) {
      return Malformed("Unknown transfer mode: " + mode);
    }
    if |parts[2..]| % 2 != 0 {
      return Malformed("Malformed " + name + " options: odd number of parts");
    }
    var options := CollectPairs(parts[2..]);
    result := Parsed(if write then Wrq(parts[0], mode, options) else Rrq(parts[0], mode, options));
  }

  method ParseOackPayload(payload: bytes) returns (result: ParseResult)
    ensures result == ParseOptionList(payload)
  {
    if payload == [] {
      return Malformed("OACK packet has no options");
    }
    var parts := SplitNullStrings(payload);
    parts := DropTrailingEmpty(parts);
    if |parts| % 2 != 0 {
      return Malformed("Malformed option list: odd number of null-terminated parts");
    }
    var options := CollectPairs(parts);
    result := Parsed(Oack(options));
  }

  // ---- Round trips ---------------------------------------------------------------------

  /** Known names, each at most once. */
  predicate GoodNames(raw: RawOptions) {
    && (forall i :: 0 <= i < |raw| ==> KnownName(raw[i].key) && Clean(raw[i].value))
    && (forall i, j :: 0 <= i < j < |raw| ==> raw[i].key != raw[j].key)
  }

  /** The strings that a list of options is written as. */
  function PairParts(raw: RawOptions): seq<string> {
    if raw == [] then [] else [raw[0].key, raw[0].value] + PairParts(raw[1..])
  }

  lemma SplitNullString(s: string, rest: bytes)
    requires Clean(s)
    ensures Split(NullString(s) + rest) == [s] + Split(rest)
  {
    var buf := NullString(s) + rest;
    DecodeEncode(s);
    FirstNulIs(buf, |s|);
    assert buf[..|s|] == Ascii.Encode(s) && buf[|s| + 1..] == rest;
  }

  lemma KnownNamesClean(key: string)
    requires KnownName(key)
    ensures Clean(key) && Lower(key) == key && key != ""
  {
  }

  lemma {:induction false} SplitPairs(raw: RawOptions)
    requires GoodNames(raw)
    ensures Split(OptionPairs(raw)) == PairParts(raw)
    decreases |raw|
  {
    if raw != [] {
      KnownNamesClean(raw[0].key);
      SplitPairs(raw[1..]);
      SplitThree(raw[0].key, raw[0].value, OptionPairs(raw[1..]));
    }
  }

  lemma AssignNew(raw: RawOptions, key: string, value: string)
    requires forall i :: 0 <= i < |raw| ==> raw[i].key != key
    ensures Assign(raw, key, value) == raw + [Entry(key, value)]
  {
  }

  lemma {:induction false} CollectPairParts(raw: RawOptions, done: RawOptions)
    requires GoodNames(done + raw)
    ensures |PairParts(raw)| == 2 * |raw|
    ensures CollectOptions(PairParts(raw), done) == done + raw
    decreases |raw|
  {
    if raw == [] {
      assert done + raw == done;
    } else {
      var e := raw[0];
      assert (done + raw)[|done|] == e;
      KnownNamesClean(e.key);
      forall i | 0 <= i < |done| ensures done[i].key != e.key {
        assert (done + raw)[i] == done[i];
      }
      AssignNew(done, e.key, e.value);
      assert Entry(e.key, e.value) == e && done + raw == (done + [e]) + raw[1..];
      CollectPairParts(raw[1..], done + [e]);
      assert PairParts(raw)[2..] == PairParts(raw[1..]);
    }
  }

  /** A trailing empty value is taken for the end of the packet. */
  predicate LastNonEmpty(raw: RawOptions) {
    raw == [] || raw[|raw| - 1].value != ""
  }

  lemma {:induction false} LastPart(raw: RawOptions)
    requires raw != []
    ensures |PairParts(raw)| == 2 * |raw| && PairParts(raw)[2 * |raw| - 1] == raw[|raw| - 1].value
    decreases |raw|
  {
    hide Ascii.Encode, Ascii.Decode;
    if |raw| > 1 {
      LastPart(raw[1..]);
      assert raw[1..][|raw| - 2] == raw[|raw| - 1];
    } else {
      assert raw[1..] == [];
    }
  }

  lemma SplitThree(a: string, b: string, rest: bytes)
    requires Clean(a) && Clean(b)
    ensures Split(NullString(a) + NullString(b) + rest) == [a, b] + Split(rest)
  {
    hide *;
    SplitNullString(b, rest);
    SplitNullString(a, NullString(b) + rest);
    assert NullString(a) + NullString(b) + rest == NullString(a) + (NullString(b) + rest);
    assert [a] + ([b] + Split(rest)) == [a, b] + Split(rest);
  }

  lemma CleanRequest(write: bool, filename: string, mode: string, raw: RawOptions)
    requires Clean(filename) && Clean(mode) && GoodNames(raw)
    ensures var p := if write then Wrq(filename, mode, raw) else Rrq(filename, mode, raw);
            ParsePacket(PacketBytes(p)) == Parsed(p) <==> filename != "" && LegalMode(mode) && LastNonEmpty(raw)
  {
    hide Split, ParsePacket, NullString, OptionPairs, PairParts, Clean, U16;
    var payload := NullString(filename) + NullString(mode) + OptionPairs(raw);
    RequestByOpcode(write, filename, mode, raw, payload);
    SplitThree(filename, mode, OptionPairs(raw));
    SplitPairs(raw);
    PairPartsOf(raw);
    PartsRoundTrip(write, filename, mode, raw, if write then "WRQ" else "RRQ", PairParts(raw));
  }

  lemma RequestByOpcode(write: bool, filename: string, mode: string, raw: RawOptions, payload: bytes)
    requires payload == NullString(filename) + NullString(mode) + OptionPairs(raw)
    ensures ParsePacket(PacketBytes(if write then Wrq(filename, mode, raw) else Rrq(filename, mode, raw)))
         == ParseRequest(payload, if write then "WRQ" else "RRQ", write)
  {
    var opcode := if write then WRQ else RRQ;
    assert RequestBytes(opcode, filename, mode, raw) == U16(opcode) + payload;
    ReadU16Of(opcode, payload);
  }

  lemma PartsRoundTrip(write: bool, filename: string, mode: string, raw: RawOptions, name: string, tail: seq<string>)
    requires |tail| == 2 * |raw| && CollectOptions(tail, []) == raw
    requires raw != [] ==> tail[|tail| - 1] == raw[|raw| - 1].value
    ensures var p := if write then Wrq(filename, mode, raw) else Rrq(filename, mode, raw);
            RequestOf(DropTrailingEmpty([filename, mode] + tail), name, write) == Parsed(p)
            <==> filename != "" && LegalMode(mode) && LastNonEmpty(raw)
  {
    LegalModesLower(mode);
    DropsLast([filename, mode], raw, tail);
    if raw == [] && mode == "" {
      assert |DropTrailingEmpty([filename, mode] + tail)| == 1;
    } else if LastNonEmpty(raw) {
      RequestOfWhole(write, filename, mode, tail, raw, name);
    } else {
      RequestOfOdd(DropTrailingEmpty([filename, mode] + tail), name, write);
    }
  }

  lemma RequestOfWhole(write: bool, filename: string, mode: string, tail: seq<string>, raw: RawOptions, name: string)
    requires |tail| % 2 == 0 && CollectOptions(tail, []) == raw
    requires LegalMode(mode) ==> Lower(mode) == mode
    ensures var p := if write then Wrq(filename, mode, raw) else Rrq(filename, mode, raw);
            RequestOf([filename, mode] + tail, name, write) == Parsed(p) <==> filename != "" && LegalMode(mode)
  {
    assert ([filename, mode] + tail)[2..] == tail;
  }

  lemma RequestOfOdd(parts: seq<string>, name: string, write: bool)
    requires |parts| % 2 == 1
    ensures !RequestOf(parts, name, write).Parsed?
  {
  }

  /** The trailing empty string is dropped, and only it. */
  lemma DropsLast(front: seq<string>, raw: RawOptions, tail: seq<string>)
    requires |tail| == 2 * |raw| && (raw != [] ==> tail[|tail| - 1] == raw[|raw| - 1].value)
    ensures raw == [] ==> front + tail == front
    ensures raw != [] && LastNonEmpty(raw) ==> DropTrailingEmpty(front + tail) == front + tail
    ensures raw != [] && !LastNonEmpty(raw) ==> |DropTrailingEmpty(front + tail)| == |front| + 2 * |raw| - 1
  {
  }

  lemma LegalModesLower(mode: string)
    ensures LegalMode(mode) ==> Lower(mode) == mode && mode != ""
  {
  }

  lemma PairPartsOf(raw: RawOptions)
    requires GoodNames(raw)
    ensures |PairParts(raw)| == 2 * |raw| && CollectOptions(PairParts(raw), []) == raw
    ensures raw != [] ==> PairParts(raw)[|PairParts(raw)| - 1] == raw[|raw| - 1].value
  {
    assert [] + raw == raw;
    CollectPairParts(raw, []);
    if raw != [] {
      LastPart(raw);
    }
  }

  lemma CleanOack(raw: RawOptions)
    requires GoodNames(raw)
    ensures ParsePacket(PacketBytes(Oack(raw))) == Parsed(Oack(raw)) <==> raw != [] && LastNonEmpty(raw)
  {
    hide Split, OptionPairs, PairParts, ParsePacket;
    SplitPairs(raw);
    PairPartsOf(raw);
    NoPairs(raw);
    OackListRoundTrip(raw, OptionPairs(raw), PairParts(raw));
    OackByOpcode(OptionPairs(raw));
  }

  lemma NoPairs(raw: RawOptions)
    ensures OptionPairs(raw) == [] <==> raw == []
  {
  }

  lemma OackByOpcode(payload: bytes)
    ensures ParsePacket(U16(OACK) + payload) == ParseOptionList(payload)
  {
    ReadU16Of(OACK, payload);
  }

  lemma OackListRoundTrip(raw: RawOptions, payload: bytes, parts: seq<string>)
    requires Split(payload) == parts && (payload == [] <==> raw == [])
    requires |parts| == 2 * |raw| && CollectOptions(parts, []) == raw
    requires raw != [] ==> parts[|parts| - 1] == raw[|raw| - 1].value
    ensures ParseOptionList(payload) == Parsed(Oack(raw)) <==> raw != [] && LastNonEmpty(raw)
  {
    hide Split, CollectOptions;
    assert [] + parts == parts;
    DropsLast([], raw, parts);
  }

  // ---- What a parser can return --------------------------------------------------------------

  ghost predicate AllSevenBit(parts: seq<string>) {
    forall i :: 0 <= i < |parts| ==> SevenBit(parts[i])
  }

  ghost predicate AllClean(parts: seq<string>) {
    forall i :: 0 <= i < |parts| ==> Clean(parts[i])
  }

  predicate Ascii7(buf: bytes) {
    forall i :: 0 <= i < |buf| ==> buf[i] < 128
  }

  /** Strings come out seven-bit, and without NULs if the octets are seven-bit. */
  lemma {:induction false} SplitYields(buf: bytes)
    ensures AllSevenBit(Split(buf)) && (Ascii7(buf) ==> AllClean(Split(buf)))
    decreases |buf|
  {
    if buf != [] {
      var k := FirstNul(buf);
      DecodeYields(buf[..k]);
      if k < |buf| {
        SplitYields(buf[k + 1..]);
      }
    }
  }

  lemma DecodeYields(bs: bytes)
    requires forall i :: 0 <= i < |bs| ==> bs[i] != 0
    ensures SevenBit(Decode(bs)) && (Ascii7(bs) ==> Clean(Decode(bs)))
  {
  }

  ghost predicate Named(raw: RawOptions) {
    && (forall i :: 0 <= i < |raw| ==> KnownName(raw[i].key) && SevenBit(raw[i].value))
    && (forall i, j :: 0 <= i < j < |raw| ==> raw[i].key != raw[j].key)
  }

  /** An assignment keeps every key in its place, and adds at most its own at the end. */
  lemma {:induction false} AssignInPlace(raw: RawOptions, key: string, value: string)
    requires exists i :: 0 <= i < |raw| && raw[i].key == key
    ensures var r := Assign(raw, key, value);
            && |r| == |raw|
            && (forall i :: 0 <= i < |raw| ==> r[i].key == raw[i].key)
            && (forall i :: 0 <= i < |raw| ==> r[i].value == raw[i].value || r[i].value == value)
    decreases |raw|
  {
    if raw[0].key != key {
      var i :| 0 <= i < |raw| && raw[i].key == key;
      assert raw[1..][i - 1].key == key;
      AssignInPlace(raw[1..], key, value);
    }
  }

  lemma AssignYields(raw: RawOptions, key: string, value: string)
    requires Named(raw) && KnownName(key) && SevenBit(value)
    ensures Named(Assign(raw, key, value))
    ensures GoodNames(raw) && Clean(value) ==> GoodNames(Assign(raw, key, value))
  {
    hide KnownName, SevenBit, Clean, Assign;
    if exists i :: 0 <= i < |raw| && raw[i].key == key {
      AssignInPlace(raw, key, value);
    } else {
      AssignNew(raw, key, value);
    }
  }

  lemma {:induction false} CollectYields(parts: seq<string>, raw: RawOptions)
    requires |parts| % 2 == 0 && AllSevenBit(parts) && Named(raw)
    ensures Named(CollectOptions(parts, raw))
    ensures AllClean(parts) && GoodNames(raw) ==> GoodNames(CollectOptions(parts, raw))
    decreases |parts|
  {
    hide KnownName, SevenBit, Clean, Assign, GoodNames, Named;
    if parts != [] {
      var key := Lower(parts[0]);
      if KnownName(key) {
        AssignYields(raw, key, parts[1]);
        CollectYields(parts[2..], Assign(raw, key, parts[1]));
      } else {
        CollectYields(parts[2..], raw);
      }
    }
  }

  lemma NoOptions()
    ensures Named([]) && GoodNames([])
  {
  }

  /** The octets of seven-bit strings are seven-bit. */
  lemma {:induction false} PairsSevenBit(raw: RawOptions)
    requires Named(raw)
    ensures Ascii7(OptionPairs(raw))
    decreases |raw|
  {
    hide KnownName;
    if raw != [] {
      KnownNamesClean(raw[0].key);
      TextSevenBit(raw[0].key);
      TextSevenBit(raw[0].value);
      PairsSevenBit(raw[1..]);
    }
  }

  lemma TextSevenBit(s: string)
    requires SevenBit(s)
    ensures Ascii7(NullString(s))
  {
  }

  lemma DropKeeps(parts: seq<string>)
    ensures AllSevenBit(parts) ==> AllSevenBit(DropTrailingEmpty(parts))
    ensures AllClean(parts) ==> AllClean(DropTrailingEmpty(parts))
  {
  }

  /** What a request can parse to. */
  lemma RequestYields(payload: bytes, name: string, write: bool, filename: string, mode: string, raw: RawOptions)
    requires ParseRequest(payload, name, write) == Parsed(if write then Wrq(filename, mode, raw) else Rrq(filename, mode, raw))
    ensures filename != "" && LegalMode(mode) && SevenBit(filename) && Named(raw)
    ensures Ascii7(payload) ==> Clean(filename) && GoodNames(raw)
  {
    hide Split, CollectOptions, SevenBit, Clean, Named, GoodNames, LegalMode, Ascii7;
    var parts := DropTrailingEmpty(Split(payload));
    SplitYields(payload);
    DropKeeps(Split(payload));
    NoOptions();
    TailYields(parts);
    CollectYields(parts[2..], []);
  }

  lemma TailYields(parts: seq<string>)
    requires |parts| >= 2
    ensures AllSevenBit(parts) ==> AllSevenBit(parts[2..])
    ensures AllClean(parts) ==> AllClean(parts[2..])
  {
  }

  lemma OackYields(payload: bytes, raw: RawOptions)
    requires ParseOptionList(payload) == Parsed(Oack(raw))
    ensures Named(raw) && (Ascii7(payload) ==> GoodNames(raw))
  {
    hide Split, CollectOptions, Named, GoodNames, Ascii7;
    SplitYields(payload);
    DropKeeps(Split(payload));
    NoOptions();
    CollectYields(DropTrailingEmpty(Split(payload)), []);
  }

  // ---- The round trips ---------------------------------------------------------------------

  /** A request parses back to itself exactly when its file has a seven-bit name without
      NULs, its mode is known, its options are known and different, their values are
      seven-bit without NULs, and the last of them is not empty. */
  lemma RequestRoundTrip(write: bool, filename: string, mode: string, raw: RawOptions)
    ensures var p := if write then Wrq(filename, mode, raw) else Rrq(filename, mode, raw);
            ParsePacket(PacketBytes(p)) == Parsed(p) <==>
            && Clean(filename) && filename != "" && LegalMode(mode)
            && GoodNames(raw) && LastNonEmpty(raw)
  {
    hide ParsePacket, NullString, OptionPairs, Clean, GoodNames, LegalMode, Named, SevenBit, Ascii7, ParseRequest;
    var p := if write then Wrq(filename, mode, raw) else Rrq(filename, mode, raw);
    var payload := NullString(filename) + NullString(mode) + OptionPairs(raw);
    RequestByOpcode(write, filename, mode, raw, payload);
    if LegalMode(mode) {
      LegalModesClean(mode);
    }
    if ParsePacket(PacketBytes(p)) == Parsed(p) {
      RequestYields(payload, if write then "WRQ" else "RRQ", write, filename, mode, raw);
      LegalModesClean(mode);
      TextSevenBit(filename);
      TextSevenBit(mode);
      PairsSevenBit(raw);
      Ascii7Joins(NullString(filename), NullString(mode), OptionPairs(raw));
    }
    if Clean(filename) && GoodNames(raw) && LegalMode(mode) {
      CleanRequest(write, filename, mode, raw);
    }
  }

  lemma LegalModesClean(mode: string)
    requires LegalMode(mode)
    ensures Clean(mode) && SevenBit(mode)
  {
  }

  lemma Ascii7Joins(a: bytes, b: bytes, c: bytes)
    requires Ascii7(a) && Ascii7(b) && Ascii7(c)
    ensures Ascii7(a + b + c)
  {
  }

  /** An OACK does so exactly when it has options, known and different, with such values. */
  lemma OackRoundTrip(raw: RawOptions)
    ensures ParsePacket(PacketBytes(Oack(raw))) == Parsed(Oack(raw)) <==> raw != [] && GoodNames(raw) && LastNonEmpty(raw)
  {
    hide ParsePacket, OptionPairs, GoodNames, Named, Ascii7, ParseOptionList;
    OackByOpcode(OptionPairs(raw));
    if ParsePacket(PacketBytes(Oack(raw))) == Parsed(Oack(raw)) {
      OackYields(OptionPairs(raw), raw);
      PairsSevenBit(raw);
    }
    if GoodNames(raw) {
      CleanOack(raw);
    }
  }

  lemma NumberedRoundTrip(n: nat, data: bytes)
    requires n < 0x10000
    ensures ParsePacket(PacketBytes(Data(n, data))) == Parsed(Data(n, data))
    ensures ParsePacket(PacketBytes(Ack(n))) == Parsed(Ack(n))
  {
    assert U16(DATA) + U16(n) + data == U16(DATA) + (U16(n) + data);
    ReadU16Of(DATA, U16(n) + data);
    ReadU16Of(n, data);
    ReadU16Of(ACK, U16(n));
    assert U16(n) + [] == U16(n);
    ReadU16Of(n, []);
  }

  /** An ERROR's message comes back exactly when it is clean. */
  lemma ErrorRoundTrip(code: nat, message: string)
    requires code < 0x10000
    ensures ParsePacket(PacketBytes(Err(code, message))) == Parsed(Err(code, message)) <==> Clean(message)
  {
    assert U16(ERROR) + U16(code) + NullString(message) == U16(ERROR) + (U16(code) + NullString(message));
    ReadU16Of(ERROR, U16(code) + NullString(message));
    ReadU16Of(code, NullString(message));
    var text := NullString(message);
    var k := FirstNul(text);
    DecodeEncode(message);
    if Clean(message) {
      FirstNulIs(text, |message|);
      assert text[..|message|] == Ascii.Encode(message);
    } else if k == |message| {
      assert text[..k] == Ascii.Encode(message);
      assert forall i :: 0 <= i < k ==> text[i] != 0;
    }
  }
}
