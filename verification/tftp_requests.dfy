/** How the server reads datagrams, told from their octets and strings alone: kinds of packets,
    requests with names in any case, and what costs a peer its transfer. */
module TftpRequests {
  import opened Bytes
  import opened Ascii
  import opened Options
  import opened Transfer
  import opened TftpServer
  import opened TftpCodec
  import opened Negotiation
  import opened TftpService

  // ---- Kinds of packets --------------------------------------------------------------------

  /** A two-octet number at an offset. */
  function NumberAt(buf: bytes, i: nat): nat
    requires i + 2 <= |buf|
  {
    buf[i] as int * 256 + buf[i + 1] as int
  }

  /** What a datagram is follows from its first two octets and its length. */
  lemma KindIs(buf: bytes)
    ensures ParsePacket(buf).Unknown? <==> 2 <= |buf| && !(1 <= NumberAt(buf, 0) <= 6)
    ensures |buf| < 4 && (|buf| < 2 || NumberAt(buf, 0) in {3, 4, 5}) ==> ParsePacket(buf).Malformed?
    ensures 4 <= |buf| && NumberAt(buf, 0) == 3 ==> ParsePacket(buf) == Parsed(Data(NumberAt(buf, 2), buf[4..]))
    ensures 4 <= |buf| && NumberAt(buf, 0) == 4 ==> ParsePacket(buf) == Parsed(Ack(NumberAt(buf, 2)))
    ensures 4 <= |buf| && NumberAt(buf, 0) == 5 ==>
              ParsePacket(buf).Parsed? && ParsePacket(buf).p.Err? && ParsePacket(buf).p.code == NumberAt(buf, 2)
    ensures ParsePacket(buf).Parsed? ==>
              2 <= |buf| && NumberAt(buf, 0) == match ParsePacket(buf).p
                                                case Rrq(_, _, _) => 1
                                                case Wrq(_, _, _) => 2
                                                case Data(_, _) => 3
                                                case Ack(_) => 4
                                                case Err(_, _) => 5
                                                case Oack(_) => 6
  {
    hide Split, DropTrailingEmpty, CollectOptions, Decode, FirstNul, Lower;
    if 2 <= |buf| {
      assert 4 <= |buf| ==> buf[2..][2..] == buf[4..];
    }
  }

  // ---- Names in any case -------------------------------------------------------------------

  /** The same letters as `word`, small or capital. */
  predicate IgnoringCase(s: string, word: string) {
    && |s| == |word|
    && forall i :: 0 <= i < |s| ==> s[i] == word[i] || ('a' <= word[i] <= 'z' && s[i] as int + 32 == word[i] as int)
  }

  predicate Small(word: string) {
    forall i :: 0 <= i < |word| ==> 'a' <= word[i] <= 'z' || '0' <= word[i] <= '9'
  }

  lemma LowerIff(s: string, word: string)
    requires Small(word)
    ensures Lower(s) == word <==> IgnoringCase(s, word)
  {
    if Lower(s) == word {
      forall i | 0 <= i < |s|
        ensures s[i] == word[i] || ('a' <= word[i] <= 'z' && s[i] as int + 32 == word[i] as int)
      {
        assert Lower(s)[i] == word[i];
      }
    }
    if IgnoringCase(s, word) {
      forall i | 0 <= i < |s| ensures Lower(s)[i] == word[i] {
      }
      assert Lower(s) == word;
    }
  }

  /** The value behind the last occurrence of a name among name-value pairs. */
  function LastValue(parts: seq<string>, name: string): Option<string>
    requires |parts| % 2 == 0
  {
    if parts == [] then None
    else
      var later := LastValue(parts[2..], name);
      if later.Some? then later else if IgnoringCase(parts[0], name) then Some(parts[1]) else None
  }

  lemma {:induction false} AssignKeepsNames(raw: RawOptions, key: string, value: string)
    requires KnownName(key) && forall i :: 0 <= i < |raw| ==> KnownName(raw[i].key)
    ensures forall i :: 0 <= i < |Assign(raw, key, value)| ==> KnownName(Assign(raw, key, value)[i].key)
    decreases |raw|
  {
    if raw != [] && raw[0].key != key {
      AssignKeepsNames(raw[1..], key, value);
    }
  }

  lemma {:induction false} CollectedIs(parts: seq<string>, raw: RawOptions, name: string)
    requires |parts| % 2 == 0 && KnownName(name) && forall i :: 0 <= i < |raw| ==> KnownName(raw[i].key)
    ensures var options := CollectOptions(parts, raw);
            && Lookup(options, name) == (if LastValue(parts, name).Some? then LastValue(parts, name) else Lookup(raw, name))
            && forall i :: 0 <= i < |options| ==> KnownName(options[i].key)
    decreases |parts|
  {
    hide Lower, IgnoringCase, Assign;
    if parts != [] {
      var key := Lower(parts[0]);
      LowerIff(parts[0], name) by { NamesAreSmall(); }
      if KnownName(key) {
        LookupAssign(raw, key, parts[1], name);
        AssignKeepsNames(raw, key, parts[1]);
        CollectedIs(parts[2..], Assign(raw, key, parts[1]), name);
      } else {
        CollectedIs(parts[2..], raw, name);
      }
    }
  }

  lemma NamesAreSmall()
    ensures forall name: string :: KnownName(name) ==> Small(name)
    ensures Small("octet") && Small("netascii")
  {
  }

  /** A request is its strings: a file, a mode in any case, and pairs of option names, in any
      case too, and values.  The last pair of each known name counts, all others are ignored. */
  lemma RequestIs(parts: seq<string>, name: string, write: bool)
    ensures var r := RequestOf(parts, name, write);
            && !r.Unknown?
            && (r.Parsed? <==>
                && 2 <= |parts| && |parts| % 2 == 0 && parts[0] != ""
                && (IgnoringCase(parts[1], "octet") || IgnoringCase(parts[1], "netascii")))
            && (r.Parsed? ==>
                  && (if write then r.p.Wrq? else r.p.Rrq?) && r.p.filename == parts[0]
                  && r.p.mode == (if IgnoringCase(parts[1], "octet") then "octet" else "netascii")
                  && forall key :: KnownName(key) ==> Lookup(r.p.options, key) == LastValue(parts[2..], key))
  {
    hide Lower, IgnoringCase, CollectOptions;
    NamesAreSmall();
    if 2 <= |parts| {
      LowerIff(parts[1], "octet");
      LowerIff(parts[1], "netascii");
      if |parts| % 2 == 0 {
        forall key | KnownName(key) ensures Lookup(CollectOptions(parts[2..], []), key) == LastValue(parts[2..], key) {
          CollectedIs(parts[2..], [], key);
        }
      }
    }
  }

  // ---- Octets --------------------------------------------------------------------------------

  /** Strings, each with a NUL behind it. */
  function Strings(parts: seq<string>): bytes {
    if parts == [] then [] else NullString(parts[0]) + Strings(parts[1..])
  }

  lemma {:induction false} StringsSplit(parts: seq<string>)
    requires forall i :: 0 <= i < |parts| ==> Clean(parts[i])
    ensures Split(Strings(parts)) == parts
    decreases |parts|
  {
    if parts != [] {
      StringsSplit(parts[1..]);
      SplitNullString(parts[0], Strings(parts[1..]));
      assert [parts[0]] + parts[1..] == parts;
    }
  }

  /** On the wire: opcode 1 or 2, then the strings, the last of them not empty. */
  lemma RequestOnTheWire(parts: seq<string>, write: bool)
    requires forall i :: 0 <= i < |parts| ==> Clean(parts[i])
    requires parts != [] && parts[|parts| - 1] != ""
    ensures ParsePacket([0, if write then 2 else 1] + Strings(parts)) == RequestOf(parts, if write then "WRQ" else "RRQ", write)
  {
    hide Split, RequestOf;
    StringsSplit(parts);
    var buf := [0, if write then 2 else 1] + Strings(parts);
    assert buf[2..] == Strings(parts);
  }

  /** An OACK is its pairs of strings. */
  lemma OackIs(payload: bytes, parts: seq<string>)
    requires parts == DropTrailingEmpty(Split(payload))
    ensures var r := ParseOptionList(payload);
            && (r.Parsed? <==> payload != [] && |parts| % 2 == 0)
            && (r.Parsed? ==>
                  r.p.Oack? && forall key :: KnownName(key) ==> Lookup(r.p.options, key) == LastValue(parts, key))
  {
    hide Split, CollectOptions, LastValue;
    if payload != [] && |parts| % 2 == 0 {
      forall key | KnownName(key) ensures Lookup(CollectOptions(parts, []), key) == LastValue(parts, key) {
        CollectedIs(parts, [], key);
      }
    }
  }

  // ---- What costs a peer its transfer --------------------------------------------------------

  /** An ACK ends a transfer that waits for the last one, or names neither the block sent last
      nor the one before. */
  predicate AckEnds(t: Core, n: nat) {
    || t.phase.SendLast? || t.phase.Done? || t.phase.Error?
    || (t.phase.Send? && !(n == 0 && t.totalPackets == 0) && n != t.blockNum && n + 1 != t.blockNum)
  }

  /** DATA ends it that is the short last block, or too long, or neither the block awaited nor
      the one before. */
  predicate DataEnds(t: Core, n: nat, size: nat) {
    t.phase.Done? || (t.phase.Recv? && if n == t.blockNum then size != t.opts.blksize else n + 1 != t.blockNum)
  }

  /** Exactly an ERROR and such an ACK or DATA take a peer's transfer from the table; an ERROR is
      not answered, and any other datagram changes nothing. */
  lemma PlaceLostIff(t: Core, buf: bytes, file: bytes)
    ensures var (h, appended) := Route(t, buf, file);
            var kind := if |buf| < 4 then 0 else NumberAt(buf, 0);
            && (!h.registered <==>
                || kind == 5
                || (kind == 4 && AckEnds(t, NumberAt(buf, 2)))
                || (kind == 3 && DataEnds(t, NumberAt(buf, 2), |buf| - 4)))
            && (kind !in {3, 4} ==> h.packets == [] && appended == [])
            && (kind !in {3, 4, 5} ==> h.t == t)
  {
    hide ParsePacket, SendLoop, Split;
    KindIs(buf);
  }

  // ---- What a peer with a transfer is sent ---------------------------------------------------

  /** An ACK is answered from the file that the request named: with what the handler of ACKs makes
      of its octets, and nothing is appended to it. */
  lemma AckIsServedFrom(c: Config, table: Table, d: Datagram, content: bytes)
    requires d.key in table && d.target.stat == IsFile(content) && 4 <= |d.buf| && NumberAt(d.buf, 0) == 4
    ensures var h := HandleTransferAck(table[d.key].t, content, NumberAt(d.buf, 2));
            && OnMessage(c, table, d).1 == h.packets && OnMessage(c, table, d).2 == []
            && (d.key in OnMessage(c, table, d).0 <==> h.registered)
            && (h.registered ==> OnMessage(c, table, d).0[d.key] == Peer(h.t, Watch(d.now, 0)))
  {
    hide HandleTransferAck, ParsePacket;
    KindIs(d.buf);
  }

  /** DATA is handed to the handler of DATA, with its number and all octets behind it, and what
      that appends is appended to the peer's file. */
  lemma DataIsTaken(c: Config, table: Table, d: Datagram)
    requires d.key in table && 4 <= |d.buf| && NumberAt(d.buf, 0) == 3
    ensures var (h, disk) := HandleTransferData(table[d.key].t, [], NumberAt(d.buf, 2), d.buf[4..]);
            && OnMessage(c, table, d).1 == h.packets && OnMessage(c, table, d).2 == disk
            && (d.key in OnMessage(c, table, d).0 <==> h.registered)
            && (h.registered ==> OnMessage(c, table, d).0[d.key] == Peer(h.t, Watch(d.now, 0)))
  {
    hide HandleTransferData, ParsePacket;
    KindIs(d.buf);
  }
}
