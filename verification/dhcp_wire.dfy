/** The DHCP server between its two buffers: what a client reads in the reply to the packet
    it sent. */
module DhcpWire {
  import opened Bytes
  import opened Buffers
  import opened DhcpPackets
  import opened DhcpTables
  import opened DhcpCodec
  import opened Encoding
  import opened DhcpAnswers
  import opened DhcpRequests
  import Decimal
  import Network

  /** Every address that the tables can give out is written the usual way. */
  ghost predicate Canonical(t: Tables) {
    && (forall ip :: ip in t.leases ==> CanonicalIPv4(ip))
    && (forall mac :: mac in t.reservations ==> CanonicalIPv4(t.reservations[mac]))
  }

  lemma ParsedIsCanonical(buf: bytes)
    requires Parse(buf).Parsed?
    ensures var p := Parse(buf).packet;
            && p.xid < 0x1_0000_0000 && CanonicalIPv4(p.ciaddr) && CanonicalMac(p.chaddr)
            && CanonicalIPv4(Requested(p))
  {
    hide ReadIPv4, CanonicalIPv4, ReadMAC, CanonicalMac, Text, ParsedOptions, ReadU16;
    var options := ParsedOptions(buf[240..]);
    ReadIsCanonical(buf[12..16]);
    ReadMacIsCanonical(buf[28..34]);
    if AddressOption(options, REQUESTED_IP).Some? {
      ReadIsCanonical(options[REQUESTED_IP]);
    }
  }

  lemma {:induction false} RandomIsCanonical(config: Config, inUse: set<IPv4>, entropy: nat -> nat, attempt: nat)
    ensures var ip := Network.RandomIP(config.serverIP, config.subnetMask, inUse, entropy, attempt);
            ip.Some? ==> CanonicalIPv4(ip.value)
    decreases Network.ATTEMPTS - attempt
  {
    hide Network.Candidate, Network.Usable, Network.IntToIPv4, CanonicalIPv4;
    if attempt < Network.ATTEMPTS {
      Network.CandidateIsWord(config.serverIP, config.subnetMask, entropy(attempt));
      IntIsCanonical(Network.Candidate(config.serverIP, config.subnetMask, entropy(attempt)));
      RandomIsCanonical(config, inUse, entropy, attempt + 1);
    }
  }

  lemma IntIsCanonical(n: nat)
    requires n < Network.WORD
    ensures CanonicalIPv4(Network.IntToIPv4(n))
  {
    hide CanonicalIPv4, Network.Dotted, Network.Byte;
    Network.BytesOf(n);
    ReadIsCanonical([n / 0x100_0000, n / 0x1_0000 % 256, n / 256 % 256, n % 256]);
  }

  ghost predicate Readable(reply: Reply) {
    reply.Offered? || reply.Acked? ==> CanonicalIPv4(reply.ip)
  }

  lemma AllocateIsCanonical(config: Config, t: Tables, mac: MAC, entropy: nat -> nat)
    requires Canonical(t)
    ensures var ip := Allocate(config, t, mac, entropy); ip.Some? ==> CanonicalIPv4(ip.value)
  {
    hide Network.RandomIP, CanonicalIPv4;
    RandomIsCanonical(config, t.inUse, entropy, 0);
  }

  lemma HandleIsCanonical(config: Config, t: Tables, p: Packet, now: int, entropy: nat -> nat)
    requires Canonical(t) && CanonicalIPv4(Requested(p))
    ensures Canonical(Handle(config, t, p, now, entropy).0)
    ensures Readable(Handle(config, t, p, now, entropy).1)
  {
    hide Allocate, InSubnet, CanonicalIPv4, Unset, Requested;
    AllocateIsCanonical(config, Gc(t, now), p.chaddr, entropy);
  }

  /** The server's whole answer to a datagram. */
  ghost function Answer(config: Config, terms: Terms, t: Tables, buf: bytes, now: int, entropy: nat -> nat)
    : (Tables, Option<bytes>)
    requires terms.leaseTime < 0x1_0000_0000
  {
    if !Parse(buf).Parsed? then (t, None)
    else
      var p := Parse(buf).packet;
      var (t', reply) := Handle(config, t, p, now, entropy);
      match reply
      case Offered(ip) => (t', Some(DhcpCodec.Reply(p, ip, terms, OFFER)))
      case Acked(ip) => (t', Some(DhcpCodec.Reply(p, ip, terms, ACK)))
      case Refused => (t', Some(NakReply(p, config.serverIP)))
      case _ => (t', None)
  }

  predicate TypeFor(reply: Reply, messageType: Option<nat>) {
    match reply
    case Offered(_) => messageType == Some(OFFER)
    case Acked(_) => messageType == Some(ACK)
    case Refused => messageType == Some(NAK)
    case _ => false
  }

  /** Whatever was sent, the answer parses, belongs to the packet it answers, and gives the
      client the very address that the tables now hold for it; its type and the server's
      identity come through when the DNS servers fit. */
  lemma AnswerIsRead(config: Config, terms: Terms, t: Tables, buf: bytes, now: int, entropy: nat -> nat)
    requires terms.leaseTime == config.leaseTime < 0x1_0000_0000
    requires terms.serverIP == config.serverIP && CanonicalIPv4(config.serverIP)
    requires Canonical(t) && Answer(config, terms, t, buf, now, entropy).1.Some?
    ensures Parse(buf).Parsed? && Parse(Answer(config, terms, t, buf, now, entropy).1.value).Parsed?
    ensures var p, q := Parse(buf).packet, Parse(Answer(config, terms, t, buf, now, entropy).1.value).packet;
            var (t', reply) := Handle(config, t, p, now, entropy);
            && Canonical(t') && q.xid == p.xid && q.chaddr == p.chaddr
            && (reply.Offered? ==> q.yiaddr == reply.ip && reply.ip in t'.offers && t'.offers[reply.ip].mac == q.chaddr)
            && (reply.Acked? ==> q.yiaddr == reply.ip && reply.ip in t'.leases && t'.leases[reply.ip].mac == q.chaddr)
            && (reply.Refused? || |terms.dnsServers| <= 63 ==>
                  TypeFor(reply, q.messageType) && q.serverID == Some(config.serverIP))
            && (!reply.Refused? && |terms.dnsServers| <= 63 ==>
                  LEASE_TIME in q.options && |q.options[LEASE_TIME]| == 4 && ReadU32(q.options[LEASE_TIME]) == config.leaseTime)
  {
    hide Parse, Handle, DhcpCodec.Reply, NakReply, CanonicalIPv4, CanonicalMac, ReplyMap;
    ParsedIsCanonical(buf);
    var p := Parse(buf).packet;
    var reply := Handle(config, t, p, now, entropy).1;
    HandleIsCanonical(config, t, p, now, entropy);
    NakRoundTrip(p, config.serverIP);
    if reply.Offered? || reply.Acked? {
      EntryHeld(config, t, p, now, entropy);
      ReplyRoundTrip(p, reply.ip, terms, if reply.Offered? then OFFER else ACK);
      LeaseTimeRead(terms, if reply.Offered? then OFFER else ACK);
    }
  }

  lemma LeaseTimeRead(terms: Terms, replyType: byte)
    requires terms.leaseTime < 0x1_0000_0000
    ensures var m := ReplyMap(terms, replyType);
            LEASE_TIME in m && |m[LEASE_TIME]| == 4 && ReadU32(m[LEASE_TIME]) == terms.leaseTime
  {
    hide IPv4Bytes, U32, ReadU32, DnsBytes;
    NumbersRoundTrip(0, terms.leaseTime);
  }

  lemma EntryHeld(config: Config, t: Tables, p: Packet, now: int, entropy: nat -> nat)
    ensures var (t', reply) := Handle(config, t, p, now, entropy);
            && (reply.Offered? ==> reply.ip in t'.offers && t'.offers[reply.ip].mac == p.chaddr)
            && (reply.Acked? ==> reply.ip in t'.leases && t'.leases[reply.ip].mac == p.chaddr)
  {
    hide Allocate, InSubnet;
  }

  // ---- What a client reads of the terms ------------------------------------------------------

  /** The options of an OFFER or ACK, by their codes (RFC 2132): message type, lease time, subnet
      mask, router, server and, if there are any, DNS servers; no others. */
  lemma ReplySays(request: Packet, ip: IPv4, terms: Terms, replyType: byte)
    requires Encodable(request.xid, terms.leaseTime) && |terms.dnsServers| <= 63
    ensures Parse(DhcpCodec.Reply(request, ip, terms, replyType)).Parsed?
    ensures var m := Parse(DhcpCodec.Reply(request, ip, terms, replyType)).packet.options;
            && m.Keys == {53, 51, 1, 3, 54} + (if terms.dnsServers == [] then {} else {6})
            && m[53] == [replyType] && |m[51]| == 4 && ReadU32(m[51]) == terms.leaseTime
            && m[1] == IPv4Bytes(terms.subnetMask) && m[3] == IPv4Bytes(terms.router)
            && m[54] == IPv4Bytes(terms.serverIP)
            && (6 in m ==>
                  && |m[6]| == 4 * |terms.dnsServers|
                  && forall i :: 0 <= i < |terms.dnsServers| ==> m[6][4 * i..4 * i + 4] == IPv4Bytes(terms.dnsServers[i]))
  {
    hide DhcpCodec.Reply, Parse, IPv4Bytes, U32, ReadU32, DnsBytes, CanonicalIPv4, CanonicalMac;
    ReplyRoundTrip(request, ip, terms, replyType);
    NumbersRoundTrip(0, terms.leaseTime);
    ServersSpelled(terms.dnsServers);
  }

  lemma {:induction false} ServersSpelled(servers: seq<IPv4>)
    ensures |DnsBytes(servers)| == 4 * |servers|
    ensures forall i :: 0 <= i < |servers| ==> DnsBytes(servers)[4 * i..4 * i + 4] == IPv4Bytes(servers[i])
    decreases |servers|
  {
    hide IPv4Bytes;
    if servers != [] {
      ServersSpelled(servers[1..]);
      var all, rest := DnsBytes(servers), DnsBytes(servers[1..]);
      assert all == IPv4Bytes(servers[0]) + rest by { ServersCons(servers); }
      forall i | 0 <= i < |servers| ensures all[4 * i..4 * i + 4] == IPv4Bytes(servers[i]) {
        if i > 0 {
          assert all[4 * i..4 * i + 4] == rest[4 * (i - 1)..4 * (i - 1) + 4];
          assert servers[1..][i - 1] == servers[i];
        }
      }
    }
  }

  lemma ServersCons(servers: seq<IPv4>)
    requires servers != []
    ensures DnsBytes(servers) == IPv4Bytes(servers[0]) + DnsBytes(servers[1..])
  {
    hide IPv4Bytes;
    assert DnsFields(servers)[1..] == DnsFields(servers[1..]);
  }

  // ---- Which datagrams are answered ----------------------------------------------------------

  /** From octets to answer: of the packets that have the cookie exactly those are answered whose
      last option 53 says 1 or 3, that come from PXE clients unless all are served, and that do
      not, being a REQUEST, name another server in their last option 54 - if there is an address
      to give. */
  lemma AnsweredIff(
      config: Config, terms: Terms, t: Tables, buf: bytes, items: seq<Item>, rest: bytes, now: int, entropy: nat -> nat)
    requires terms.leaseTime < 0x1_0000_0000 && Spells(buf, items, rest)
    ensures Parse(buf).Parsed?
    ensures var kind, vendor, server := LastOf(items, 53), LastOf(items, 60), Address(LastOf(items, 54));
            Answer(config, terms, t, buf, now, entropy).1.Some? <==>
            && kind.Some? && kind.value != [] && (kind.value[0] == 1 || kind.value[0] == 3)
            && (config.answerAll || (vendor.Some? && SaysPXEClient(vendor.value)))
            && !(kind.value[0] == 3 && server.Some? && server.value != config.serverIP)
            && !Handle(config, t, Parse(buf).packet, now, entropy).1.Failed?
    ensures Answer(config, terms, t, buf, now, entropy).0 == Handle(config, t, Parse(buf).packet, now, entropy).0
  {
    hide Parse, Handle, DhcpCodec.Reply, NakReply, LastOf, SaysPXEClient, Network.Dotted;
    PxeIff(buf, items, rest);
    NumbersAre(buf, items, rest);
    SilentIff(config, t, Parse(buf).packet, now, entropy);
    if Address(LastOf(items, 54)).Some? {
      AddressIsText(LastOf(items, 54).value);
    }
  }

  lemma AddressIsText(b: bytes)
    requires |b| == 4
    ensures Network.Dotted(b[0], b[1], b[2], b[3]) != ""
  {
    hide Decimal.Print;
  }

  /** A buffer that is no packet is not answered and changes nothing. */
  lemma NoPacketNoAnswer(config: Config, terms: Terms, t: Tables, buf: bytes, now: int, entropy: nat -> nat)
    requires terms.leaseTime < 0x1_0000_0000 && (|buf| < 240 || buf[236..240] != [0x63, 0x82, 0x53, 0x63])
    ensures Answer(config, terms, t, buf, now, entropy) == (t, None)
  {
    hide Handle, DhcpCodec.Reply, NakReply, Parse;
    DhcpRequests.RefusedIff(buf);
  }
}
