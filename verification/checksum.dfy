/** The IP header checksum and the raw frames that carry it: src/dhcp/protocol.mts. */
module Checksum {
  import opened Bytes
  import opened Buffers
  import opened Encoding

  /** The sum of the 16-bit words; an odd octet at the end is a word's high one. */
  function WordSum(h: bytes): nat {
    var n := |h|;
    if n == 0 then 0
    else if n % 2 == 1 then WordSum(h[..n - 1]) + h[n - 1] as int * 256
    else WordSum(h[..n - 2]) + (h[n - 2] as int * 256 + h[n - 1] as int)
  }

  /** A sum in one's complement arithmetic of 16 bits. */
  function Fold(sum: nat): (f: nat)
    ensures f <= 65535
  {
    if sum == 0 then 0 else (sum - 1) % 65535 + 1
  }

  function IpChecksum(h: bytes): (c: nat)
    ensures c <= 65535
  {
    65535 - Fold(WordSum(h))
  }

  /** Carrying around after every word comes to the same as folding at the end. */
  lemma FoldAdds(sum: nat, w: nat)
    requires w <= 65535
    ensures var x := Fold(sum) + w; Fold(sum + w) == if x > 65535 then x % 65536 + 1 else x
  {
    if sum > 0 {
      var q := (sum - 1) / 65535;
      assert sum + w == q * 65535 + (Fold(sum) + w);
    }
  }

  /** The next word behind the octets that have been summed. */
  lemma NextWord(h: bytes, i: nat)
    requires i % 2 == 0 && i < |h|
    ensures var next := h[..Min(i + 2, |h|)];
            WordSum(next) == WordSum(h[..i]) + (h[i] as int * 256 + (if i + 1 < |h| then h[i + 1] as int else 0))
  {
    var next := h[..Min(i + 2, |h|)];
    if i + 1 < |h| {
      assert next[..|next| - 2] == h[..i];
    } else {
      assert next[..|next| - 1] == h[..i];
    }
  }

  method ComputeChecksum(header: array<byte>) returns (c: nat)
    ensures c == IpChecksum(header[..])
  {
    hide WordSum, Fold;
    var sum: nat := 0;
    var i := 0;
    NothingSummed(header[..]);
    while i < header.Length
      invariant 0 <= i <= header.Length + 1 && i % 2 == 0
      invariant sum == Fold(WordSum(header[..][..Min(i, header.Length)]))
    {
      var word: nat := header[i] as int * 256;
      if i + 1 < header.Length {
        word := word + header[i + 1] as int;
      }
      NextWord(header[..], i);
      FoldAdds(WordSum(header[..][..i]), word);
      sum := sum + word;
      if sum > 0xffff {
        sum := sum % 0x1_0000 + 1;
      }
      i := i + 2;
    }
    assert header[..][..header.Length] == header[..];
    c := 0xffff - sum;
  }

  lemma NothingSummed(h: bytes)
    ensures Fold(WordSum(h[..0])) == 0
  {
  }

  function WordAt(h: bytes, k: nat): nat
    requires k + 2 <= |h|
  {
    h[k] as int * 256 + h[k + 1] as int
  }

  lemma {:induction false} WordSumSplice(h: bytes, k: nat, w: nat)
    requires k % 2 == 0 && k + 2 <= |h| && w <= 65535
    ensures WordSum(Splice(h, k, U16(w))) == WordSum(h) - WordAt(h, k) + w
    decreases |h|
  {
    var h', n := Splice(h, k, U16(w)), |h|;
    assert ReadU16(U16(w)) == w by { NumbersRoundTrip(w, 0); }
    hide U16;
    if k + 2 == n {
      assert h'[k] == U16(w)[0] && h'[k + 1] == U16(w)[1];
      assert h'[..n - 2] == h[..n - 2];
    } else {
      var m := if n % 2 == 1 then n - 1 else n - 2;
      WordSumSplice(h[..m], k, w);
      assert h'[..m] == Splice(h[..m], k, U16(w));
      assert h'[n - 1] == h[n - 1] && (n % 2 == 0 ==> h'[n - 2] == h[n - 2]);
    }
  }

  lemma FoldIsFull(sum: nat)
    ensures Fold(sum) == 65535 <==> sum > 0 && sum % 65535 == 0
  {
    if sum > 0 && sum % 65535 != 0 {
      assert (sum - 1) % 65535 == sum % 65535 - 1;
    } else if sum > 0 {
      assert (sum - 1) % 65535 == 65534;
    }
  }

  /** The checksum that is stored in the field it was computed without makes the receiver's
      come to zero (section 3.1 of RFC 791). */
  lemma StoredVerifies(h: bytes, k: nat)
    requires k % 2 == 0 && k + 2 <= |h| && WordAt(h, k) == 0
    ensures IpChecksum(Splice(h, k, U16(IpChecksum(h)))) == 0
  {
    var sum, c := WordSum(h), IpChecksum(h);
    WordSumSplice(h, k, c);
    FoldIsFull(sum + c);
    if sum > 0 {
      var q := (sum - 1) / 65535;
      assert sum + c == (q + 1) * 65535;
    }
  }

  /** A header that verifies does not verify any more when a word is replaced, unless the
      new word is the other zero of one's complement. */
  lemma ChangeIsDetected(h: bytes, k: nat, w: nat)
    requires k % 2 == 0 && k + 2 <= |h| && w <= 65535 && IpChecksum(h) == 0
    ensures var h' := Splice(h, k, U16(w));
            IpChecksum(h') == 0 <==> WordSum(h') > 0 && (w == WordAt(h, k) || {w, WordAt(h, k)} == {0, 65535})
  {
    WordSumSplice(h, k, w);
    FoldIsFull(WordSum(h));
    FoldIsFull(WordSum(h) - WordAt(h, k) + w);
    SameResidue(WordSum(h), WordAt(h, k), w);
  }

  lemma SameResidue(sum: nat, v: nat, w: nat)
    requires sum % 65535 == 0 && v <= 65535 && w <= 65535 && v <= sum
    ensures (sum - v + w) % 65535 == 0 <==> v == w || {v, w} == {0, 65535}
  {
  }

  // ---- Raw frames --------------------------------------------------------------------------

  const SERVER_PORT: nat := 67
  const CLIENT_PORT: nat := 68
  const ETHERNET_IP_PROTO: nat := 0x0800

  /** The IP header with its checksum still zero. */
  function HeaderFields(length: nat, srcIP: IPv4, dstIP: IPv4): seq<bytes>
    requires length < 0x1_0000
  {
    [[0x45, 0], U16(length), U16(0), U16(0), [64, 0x11], U16(0), IPv4Bytes(srcIP), IPv4Bytes(dstIP)]
  }

  const HEADER_OFFSETS: seq<int> := [0, 2, 4, 6, 8, 10, 12, 16, 20]

  function IpHeader(length: nat, srcIP: IPv4, dstIP: IPv4): (h: bytes)
    requires length < 0x1_0000
  {
    Concat(HeaderFields(length, srcIP, dstIP))
  }

  lemma HeaderLayout(length: nat, srcIP: IPv4, dstIP: IPv4)
    requires length < 0x1_0000
    ensures var h := IpHeader(length, srcIP, dstIP);
            && |h| == 20 && h[10] == h[11] == 0
            && h[2..4] == U16(length) && h[12..16] == IPv4Bytes(srcIP) && h[16..20] == IPv4Bytes(dstIP)
  {
    hide IPv4Bytes, U16, Concat;
    var fields, h := HeaderFields(length, srcIP, dstIP), IpHeader(length, srcIP, dstIP);
    assert h + [] == h;
    ConcatLength(fields, HEADER_OFFSETS);
    FieldAt(fields, HEADER_OFFSETS, [], 1);
    FieldAt(fields, HEADER_OFFSETS, [], 5);
    FieldAt(fields, HEADER_OFFSETS, [], 6);
    FieldAt(fields, HEADER_OFFSETS, [], 7);
    ZeroWord();
    assert h[10] == h[10..12][0] && h[11] == h[10..12][1];
  }

  /** Version and length of the header, no fragments, time to live, UDP. */
  lemma HeaderConstants(length: nat, srcIP: IPv4, dstIP: IPv4)
    requires length < 0x1_0000
    ensures var h := IpHeader(length, srcIP, dstIP);
            && |h| == 20 && h[..2] == [0x45, 0] && h[4..6] == [0, 0] && h[6..8] == [0, 0] && h[8..10] == [64, 17]
  {
    hide IPv4Bytes, U16, Concat;
    var fields, h := HeaderFields(length, srcIP, dstIP), IpHeader(length, srcIP, dstIP);
    assert h + [] == h;
    ConcatLength(fields, HEADER_OFFSETS);
    FieldAt(fields, HEADER_OFFSETS, [], 0);
    FieldAt(fields, HEADER_OFFSETS, [], 2);
    FieldAt(fields, HEADER_OFFSETS, [], 3);
    FieldAt(fields, HEADER_OFFSETS, [], 4);
    ZeroWord();
  }

  lemma ZeroWord()
    ensures U16(0) == [0, 0]
  {
  }

  /** The header with its checksum, as it is sent. */
  function SignedHeader(length: nat, srcIP: IPv4, dstIP: IPv4): bytes
    requires length < 0x1_0000
  {
    var h := IpHeader(length, srcIP, dstIP);
    HeaderLayout(length, srcIP, dstIP);
    Splice(h, 10, U16(IpChecksum(h)))
  }

  function EthernetFields(srcMAC: MAC, dstMAC: MAC): seq<bytes> {
    [MacBytes(dstMAC), MacBytes(srcMAC), U16(ETHERNET_IP_PROTO)]
  }

  function UdpFields(length: nat): seq<bytes>
    requires length < 0x1_0000
  {
    [U16(SERVER_PORT), U16(CLIENT_PORT), U16(length), U16(0)]
  }

  /** Ethernet, IP and UDP headers in front of the payload. */
  function Frame(payload: bytes, srcMAC: MAC, dstMAC: MAC, srcIP: IPv4, dstIP: IPv4): bytes
    requires |payload| + 28 < 0x1_0000
  {
    Concat(EthernetFields(srcMAC, dstMAC)) + SignedHeader(|payload| + 28, srcIP, dstIP)
    + Concat(UdpFields(|payload| + 8)) + payload
  }

  method WriteIpHeader(length: nat, srcIP: IPv4, dstIP: IPv4) returns (header: array<byte>)
    requires length < 0x1_0000
    ensures fresh(header) && header[..] == SignedHeader(length, srcIP, dstIP)
  {
    hide IPv4Bytes, U16, Splice, Filled, Concat;
    header := new byte[20](_ => 0);
    ghost var f := HeaderFields(length, srcIP, dstIP);
    AllZeros(header[..], f);
    WriteField(header, 0, [0x45, 0], f, 0);
    WriteField(header, 2, U16(length), f, 1);
    WriteField(header, 4, U16(0), f, 2);
    WriteField(header, 6, U16(0), f, 3);
    WriteField(header, 8, [64, 0x11], f, 4);
    WriteField(header, 10, U16(0), f, 5);
    FillNext(header[..], 12, f, 6);
    WriteIPv4(header, 12, srcIP);
    FillNext(header[..], 16, f, 7);
    WriteIPv4(header, 16, dstIP);
    AllFilled(header[..], f);
    var cksum := ComputeChecksum(header);
    WriteU16(header, 10, cksum);
  }

  method WriteUdpHeader(length: nat) returns (udp: array<byte>)
    requires length < 0x1_0000
    ensures fresh(udp) && udp[..] == Concat(UdpFields(length))
  {
    hide U16, Splice, Filled, Concat;
    udp := new byte[8](_ => 0);
    ghost var f := UdpFields(length);
    AllZeros(udp[..], f);
    WriteField(udp, 0, U16(SERVER_PORT), f, 0);
    WriteField(udp, 2, U16(CLIENT_PORT), f, 1);
    WriteField(udp, 4, U16(length), f, 2);
    WriteField(udp, 6, U16(0), f, 3);
    AllFilled(udp[..], f);
  }

  method WriteEthernetHeader(srcMAC: MAC, dstMAC: MAC) returns (eth: array<byte>)
    ensures fresh(eth) && eth[..] == Concat(EthernetFields(srcMAC, dstMAC))
  {
    hide U16, Splice, Filled, Concat, MacBytes;
    eth := new byte[14](_ => 0);
    ghost var f := EthernetFields(srcMAC, dstMAC);
    AllZeros(eth[..], f);
    FillNext(eth[..], 0, f, 0);
    WriteMAC(eth, 0, dstMAC);
    FillNext(eth[..], 6, f, 1);
    WriteMAC(eth, 6, srcMAC);
    WriteField(eth, 12, U16(ETHERNET_IP_PROTO), f, 2);
    AllFilled(eth[..], f);
  }

  /** A frame for raw sockets; None stands for the exception when a length field would not
      hold the length. */
  method EncodeRawDHCPFrame(payload: bytes, srcMAC: MAC, dstMAC: MAC, srcIP: IPv4, dstIP: IPv4)
    returns (frame: Option<bytes>)
    ensures frame.Some? <==> |payload| + 28 < 0x1_0000
    ensures frame.Some? ==> frame.value == Frame(payload, srcMAC, dstMAC, srcIP, dstIP)
  {
    var udpLen := 8 + |payload|;
    if udpLen > 0xffff || 20 + udpLen > 0xffff {
      return None;
    }
    var udp := WriteUdpHeader(udpLen);
    var ipHeader := WriteIpHeader(20 + udpLen, srcIP, dstIP);
    var eth := WriteEthernetHeader(srcMAC, dstMAC);
    frame := Some(eth[..] + ipHeader[..] + udp[..] + payload);
  }

  lemma EthernetLayout(srcMAC: MAC, dstMAC: MAC)
    ensures var e := Concat(EthernetFields(srcMAC, dstMAC));
            && |e| == 14 && e[..6] == MacBytes(dstMAC) && e[6..12] == MacBytes(srcMAC)
            && ReadU16(e[12..14]) == 0x0800
  {
    hide U16, ReadU16, MacBytes, Concat;
    var e := EthernetFields(srcMAC, dstMAC);
    assert Concat(e) + [] == Concat(e);
    ConcatLength(e, [0, 6, 12, 14]);
    FieldAt(e, [0, 6, 12, 14], [], 0);
    FieldAt(e, [0, 6, 12, 14], [], 1);
    FieldAt(e, [0, 6, 12, 14], [], 2);
    NumbersRoundTrip(0x0800, 0);
  }

  lemma UdpLayout(length: nat)
    requires length < 0x1_0000
    ensures var u := Concat(UdpFields(length));
            && |u| == 8 && ReadU16(u[..2]) == 67 && ReadU16(u[2..4]) == 68
            && ReadU16(u[4..6]) == length && ReadU16(u[6..8]) == 0
  {
    hide U16, ReadU16, Concat;
    var u := UdpFields(length);
    assert Concat(u) + [] == Concat(u);
    ConcatLength(u, [0, 2, 4, 6, 8]);
    FieldAt(u, [0, 2, 4, 6, 8], [], 0);
    FieldAt(u, [0, 2, 4, 6, 8], [], 1);
    FieldAt(u, [0, 2, 4, 6, 8], [], 2);
    FieldAt(u, [0, 2, 4, 6, 8], [], 3);
    NumbersRoundTrip(67, 0);
    NumbersRoundTrip(68, 0);
    NumbersRoundTrip(length, 0);
    NumbersRoundTrip(0, 0);
  }

  lemma HeaderVerifies(length: nat, srcIP: IPv4, dstIP: IPv4)
    requires length < 0x1_0000
    ensures var s := SignedHeader(length, srcIP, dstIP);
            && |s| == 20 && IpChecksum(s) == 0 && ReadU16(s[2..4]) == length
            && s[..2] == [0x45, 0] && s[4..6] == [0, 0] && s[6..8] == [0, 0] && s[8..10] == [64, 17]
            && s[12..16] == IPv4Bytes(srcIP) && s[16..20] == IPv4Bytes(dstIP)
  {
    hide U16, IPv4Bytes, IpHeader, WordSum;
    var h := IpHeader(length, srcIP, dstIP);
    HeaderLayout(length, srcIP, dstIP);
    StoredVerifies(h, 10);
    var s := SignedHeader(length, srcIP, dstIP);
    SpliceBeside(h, 10, U16(IpChecksum(h)), 0, 2);
    SpliceBeside(h, 10, U16(IpChecksum(h)), 2, 4);
    SpliceBeside(h, 10, U16(IpChecksum(h)), 4, 6);
    SpliceBeside(h, 10, U16(IpChecksum(h)), 6, 8);
    SpliceBeside(h, 10, U16(IpChecksum(h)), 8, 10);
    HeaderConstants(length, srcIP, dstIP);
    SpliceBeside(h, 10, U16(IpChecksum(h)), 12, 16);
    SpliceBeside(h, 10, U16(IpChecksum(h)), 16, 20);
    NumbersRoundTrip(length, 0);
  }

  /** The frame a receiver takes apart: its IP header verifies, both length fields are
      right, and addresses and payload are those given. */
  lemma FrameVerifies(payload: bytes, srcMAC: MAC, dstMAC: MAC, srcIP: IPv4, dstIP: IPv4)
    requires |payload| + 28 < 0x1_0000
    ensures var f := Frame(payload, srcMAC, dstMAC, srcIP, dstIP);
            && |f| == 42 + |payload|
            && f[..6] == MacBytes(dstMAC) && f[6..12] == MacBytes(srcMAC)
            && IpChecksum(f[14..34]) == 0
            && ReadU16(f[12..14]) == 0x0800 && f[14..16] == [0x45, 0]
            && f[18..20] == [0, 0] && f[20..22] == [0, 0] && f[22..24] == [64, 17]
            && ReadU16(f[34..36]) == 67 && ReadU16(f[36..38]) == 68 && ReadU16(f[40..42]) == 0
            && ReadU16(f[16..18]) == |f| - 14 && ReadU16(f[38..40]) == |f| - 34
            && f[26..30] == IPv4Bytes(srcIP) && f[30..34] == IPv4Bytes(dstIP)
            && f[42..] == payload
  {
    hide U16, ReadU16, IPv4Bytes, MacBytes, IpChecksum, SignedHeader, Concat;
    EthernetLayout(srcMAC, dstMAC);
    UdpLayout(|payload| + 8);
    HeaderVerifies(|payload| + 28, srcIP, dstIP);
    var e, s, u := Concat(EthernetFields(srcMAC, dstMAC)), SignedHeader(|payload| + 28, srcIP, dstIP),
                   Concat(UdpFields(|payload| + 8));
    var f := Frame(payload, srcMAC, dstMAC, srcIP, dstIP);
    assert f[14..34] == s && f[42..] == payload && f[..6] == e[..6] && f[6..12] == e[6..12];
    assert f[16..18] == s[2..4] && f[26..30] == s[12..16] && f[30..34] == s[16..20] && f[38..40] == u[4..6];
    assert f[12..14] == e[12..14] && f[14..16] == s[..2];
    assert f[18..20] == s[4..6] && f[20..22] == s[6..8] && f[22..24] == s[8..10];
    assert f[34..36] == u[..2] && f[36..38] == u[2..4] && f[40..42] == u[6..8];
  }
}
