/** The TFTP server's handlers: src/tftp/server.mts.

    Every handler runs as one atomic step, the peer's key is its address and port, and a
    file read returns all it is asked for unless the file ends. */
module TftpServer {
  import opened Bytes
  import opened Blocks
  import opened Options
  import opened Transfer
  import opened Emissions

  /** What encoding block number 65536 throws. */
  const OUT_OF_RANGE :=
    "The value of \"value\" is out of range. It must be >= 0 and <= 65535. Received 65536"

  const NO_ACTIVE_TRANSFER := Err(ILLEGAL_OPERATION, "No active transfer")

  /** The loop that reads and sends one window: blocks until a short one, `windowsize` of
      them, or the end of the file. */
  function SendLoop(t: Core, file: bytes, sent: nat): (Core, seq<Packet>)
    decreases if t.phase.Send? then 1 else 0, |file| - t.fileOffset
  {
    if !t.phase.Send? && !t.phase.SendLast? then (t, [])
    else
      var chunk := ReadAt(file, t.fileOffset, t.opts.blksize);
      var t1 := t.(fileOffset := t.fileOffset + |chunk|);
      if |chunk| == 0 && t.phase.Send? then (t1.(phase := SendLast), [])
      else
        var (t2, p) := ProduceData(t1, chunk);
        if p.None? then
          var (t3, r) := AdvanceError(SetError(t2, NOT_DEFINED, OUT_OF_RANGE));
          (t3, r.packets)
        else
          var t3 := t2.(bytesSent := t2.bytesSent + |chunk|);
          if t3.phase.SendLast? || sent + 1 >= t.opts.windowsize then (t3, [p.value])
          else
            var (t4, ps) := SendLoop(t3, file, sent + 1);
            (t4, [p.value] + ps)
  }

  /** The transfer after a handler, the packets sent, and whether it is still registered. */
  datatype Handled = Handled(t: Core, packets: seq<Packet>, registered: bool)

  /** An ACK for a registered transfer.  A mismatch makes an ERROR packet, but the state is
      Done by then and that branch sends nothing. */
  function HandleTransferAck(t: Core, file: bytes, blockNum: nat): Handled {
    var (t1, result) := HandleAck(t, blockNum);
    if t1.phase.Done? then Handled(t1, [], false)
    else if t1.phase.Error? then Handled(t1, if result.Some? then result.value.packets else [], false)
    else if t1.phase.Send? then
      var (t2, ps) := SendLoop(t1, file, 0);
      Handled(t2, ps, true)
    else Handled(t1, [], true)
  }

  /** DATA for a registered transfer, and the file it is appended to.  Whatever `recvData`
      holds is appended, also when this packet was not accepted. */
  function HandleTransferData(t: Core, disk: bytes, blockNum: nat, data: bytes): (Handled, bytes) {
    var (t1, result) := HandleData(t, blockNum, data);
    (Handled(t1, if result.Some? then result.value.packets else [], !t1.phase.Done?), disk + t1.recvData)
  }

  // ---- The sender's invariant ----------------------------------------------------------

  /** Offset, bytes and number all follow from the count of packets made. */
  ghost predicate SenderOk(t: Core, file: bytes) {
    && 0 < t.opts.blksize && 0 < t.opts.windowsize
    && t.sendBuffer == []
    && t.fileOffset == t.bytesSent == Min(t.totalPackets * t.opts.blksize, |file|)
    && t.blockNum == Wire(t.totalPackets)
    && (t.wrap || t.totalPackets <= WIRE_MAX)
    && (t.phase.Send? ==> t.totalPackets * t.opts.blksize <= |file|)
    && (t.phase.SendLast? ==> t.totalPackets == BlockCount(|file|, t.opts.blksize))
  }

  lemma FreshIsOk(file: bytes, opts: Opts, wrap: bool, withOptions: bool)
    requires 0 < opts.blksize && 0 < opts.windowsize
    ensures var t := AdvanceSend(InitRRQ(Fresh(true, wrap, opts), withOptions)).0;
            SenderOk(t, file) && t.phase.Send? && t.totalPackets == 0 && t.opts == opts
  {
  }

  /** The sender after `count` more packets. */
  function Sent(t: Core, file: bytes, count: nat, phase: Phase): Core {
    var total := t.totalPackets + count;
    var offset := Min(total * t.opts.blksize, |file|);
    t.(totalPackets := total, blockNum := Wire(total), fileOffset := offset, bytesSent := offset, phase := phase)
  }

  /** How many packets the rest of a window holds. */
  function WindowLeft(t: Core, file: bytes, sent: nat): int
    requires 0 < t.opts.blksize
  {
    Min(t.opts.windowsize - sent, BlockCount(|file|, t.opts.blksize) - t.totalPackets)
  }

  /** The last packet of the file has been made, or the loop has met its end. */
  predicate ReachesEnd(t: Core, file: bytes, sent: nat, count: nat) {
    count < t.opts.windowsize - sent || (t.totalPackets + count) * t.opts.blksize > |file|
  }

  /** A window, in closed form: exactly the next blocks of the file, as many as the window
      and the file allow, under their wire numbers.  The numbers run out only in strict
      RFC 1350 mode, where the 65536th packet ends in an ERROR. */
  ghost predicate WindowOf(t: Core, file: bytes, sent: nat, t': Core, ps: seq<Packet>)
    requires 0 < t.opts.blksize
  {
    var count := WindowLeft(t, file, sent);
    && 0 <= count
    && if t.wrap || t.totalPackets + count <= WIRE_MAX then
         && ps == Emission(file, t.opts.blksize, t.totalPackets, count)
         && t' == Sent(t, file, count, if ReachesEnd(t, file, sent, count) then SendLast else Send)
         && SenderOk(t', file)
       else
         && t.totalPackets <= WIRE_MAX
         && ps == Emission(file, t.opts.blksize, t.totalPackets, WIRE_MAX - t.totalPackets)
                  + [Err(NOT_DEFINED, OUT_OF_RANGE)]
         && t'.phase.Done?
  }

  lemma {:induction false} WindowSent(t: Core, file: bytes, sent: nat)
    requires SenderOk(t, file) && t.phase.Send? && sent < t.opts.windowsize
    ensures var (t', ps) := SendLoop(t, file, sent); WindowOf(t, file, sent, t', ps)
    decreases t.opts.windowsize - sent
  {
    hide WindowOf, Wire, Emission;
    var b, n, m := t.opts.blksize, |file|, t.totalPackets;
    WholeBlocks(n, b, m);
    if m * b == n {
      WindowAtEnd(t, file, sent);
    } else if !t.wrap && m == WIRE_MAX {
      WindowThrows(t, file, sent);
    } else {
      OneBlock(t, file);
      var chunk := Block(file, b, m + 1);
      var t3 := Sent(t, file, 1, if |chunk| < b then SendLast else Send);
      if |chunk| == b && sent + 1 < t.opts.windowsize {
        WindowSent(t3, file, sent + 1);
        LoopContinues(t, t3, file, sent);
        WindowGrows(t, t3, file, sent, SendLoop(t3, file, sent + 1).0, SendLoop(t3, file, sent + 1).1);
      } else {
        WindowCloses(t, t3, file, sent);
      }
    }
  }

  lemma WindowAtEnd(t: Core, file: bytes, sent: nat)
    requires SenderOk(t, file) && t.phase.Send? && sent < t.opts.windowsize
    requires t.totalPackets * t.opts.blksize == |file|
    ensures SendLoop(t, file, sent) == (t.(phase := SendLast), [])
    ensures WindowOf(t, file, sent, t.(phase := SendLast), [])
  {
    WholeBlocks(|file|, t.opts.blksize, t.totalPackets);
    assert Sent(t, file, 0, SendLast) == t.(phase := SendLast);
    assert Emission(file, t.opts.blksize, t.totalPackets, 0) == [];
  }

  lemma WindowThrows(t: Core, file: bytes, sent: nat)
    requires SenderOk(t, file) && t.phase.Send? && sent < t.opts.windowsize
    requires !t.wrap && t.totalPackets == WIRE_MAX && WIRE_MAX * t.opts.blksize < |file|
    ensures var (t', ps) := SendLoop(t, file, sent); WindowOf(t, file, sent, t', ps)
  {
    WholeBlocks(|file|, t.opts.blksize, WIRE_MAX);
    BlockNumberingAgrees(WIRE_MAX);
    assert SendLoop(t, file, sent).1 == [Err(NOT_DEFINED, OUT_OF_RANGE)];
    assert Emission(file, t.opts.blksize, WIRE_MAX, 0) == [];
    assert SendLoop(t, file, sent).1 == Emission(file, t.opts.blksize, WIRE_MAX, 0) + [Err(NOT_DEFINED, OUT_OF_RANGE)];
  }

  lemma WindowCloses(t: Core, t3: Core, file: bytes, sent: nat)
    requires SenderOk(t, file) && t.phase.Send? && sent < t.opts.windowsize
    requires t.totalPackets * t.opts.blksize < |file| && (t.wrap || t.totalPackets < WIRE_MAX)
    requires var short := |Block(file, t.opts.blksize, t.totalPackets + 1)| < t.opts.blksize;
             && t3 == Sent(t, file, 1, if short then SendLast else Send) && SenderOk(t3, file)
             && (short || sent + 1 >= t.opts.windowsize)
    ensures var (t', ps) := SendLoop(t, file, sent); WindowOf(t, file, sent, t', ps)
  {
    hide Wire, SendLoop, Emission;
    var b, m := t.opts.blksize, t.totalPackets;
    LoopEnds(t, t3, file, sent);
    assert (m + 1) * b == m * b + b;
    WholeBlocks(|file|, b, m);
    WholeBlocks(|file|, b, m + 1);
    EmissionOne(file, b, m);
  }

  lemma LoopEnds(t: Core, t3: Core, file: bytes, sent: nat)
    requires SenderOk(t, file) && t.phase.Send? && sent < t.opts.windowsize
    requires t.totalPackets * t.opts.blksize < |file| && (t.wrap || t.totalPackets < WIRE_MAX)
    requires var short := |Block(file, t.opts.blksize, t.totalPackets + 1)| < t.opts.blksize;
             && t3 == Sent(t, file, 1, if short then SendLast else Send)
             && (short || sent + 1 >= t.opts.windowsize)
    ensures SendLoop(t, file, sent) ==
            (t3, [Data(Wire(t.totalPackets + 1), Block(file, t.opts.blksize, t.totalPackets + 1))])
  {
    hide Wire, SenderOk, ProduceData;
    ReadsNext(t, file);
    OneBlock(t, file);
  }

  lemma ReadsNext(t: Core, file: bytes)
    requires SenderOk(t, file) && t.totalPackets * t.opts.blksize < |file|
    ensures ReadAt(file, t.fileOffset, t.opts.blksize) == Block(file, t.opts.blksize, t.totalPackets + 1)
    ensures ReadAt(file, t.fileOffset, t.opts.blksize) != []
  {
    hide Wire, BlockCount;
  }

  lemma LoopContinues(t: Core, t3: Core, file: bytes, sent: nat)
    requires SenderOk(t, file) && t.phase.Send? && sent + 1 < t.opts.windowsize
    requires t.totalPackets * t.opts.blksize < |file| && (t.wrap || t.totalPackets < WIRE_MAX)
    requires |Block(file, t.opts.blksize, t.totalPackets + 1)| == t.opts.blksize
    requires t3 == Sent(t, file, 1, Send)
    ensures var r := SendLoop(t3, file, sent + 1);
            SendLoop(t, file, sent) ==
            (r.0, [Data(Wire(t.totalPackets + 1), Block(file, t.opts.blksize, t.totalPackets + 1))] + r.1)
  {
    hide Wire, SenderOk, ProduceData;
    ReadsNext(t, file);
    OneBlock(t, file);
  }

  lemma WindowGrows(t: Core, t3: Core, file: bytes, sent: nat, t': Core, rest: seq<Packet>)
    requires SenderOk(t, file) && t.phase.Send? && sent + 1 < t.opts.windowsize
    requires t.wrap || t.totalPackets < WIRE_MAX
    requires t3 == Sent(t, file, 1, Send) && SenderOk(t3, file)
    requires WindowOf(t3, file, sent + 1, t', rest)
    ensures WindowOf(t, file, sent, t', [Data(Wire(t.totalPackets + 1), Block(file, t.opts.blksize, t.totalPackets + 1))] + rest)
  {
    var b, m := t.opts.blksize, t.totalPackets;
    var p := Data(Wire(m + 1), Block(file, b, m + 1));
    var count := WindowLeft(t3, file, sent + 1);
    assert WindowLeft(t, file, sent) == count + 1;
    if t.wrap || m + 1 + count <= WIRE_MAX {
      EmissionCons(file, b, m, count);
      assert m + (count + 1) == (m + 1) + count;
      assert ReachesEnd(t, file, sent, count + 1) == ReachesEnd(t3, file, sent + 1, count);
    } else {
      EmissionCons(file, b, m, WIRE_MAX - m - 1);
      var e := [Err(NOT_DEFINED, OUT_OF_RANGE)];
      assert [p] + (Emission(file, b, m + 1, WIRE_MAX - m - 1) + e) == ([p] + Emission(file, b, m + 1, WIRE_MAX - m - 1)) + e;
    }
  }

  /** One turn of the loop that sends a packet. */
  lemma OneBlock(t: Core, file: bytes)
    requires SenderOk(t, file) && t.phase.Send? && t.totalPackets * t.opts.blksize < |file|
    requires t.wrap || t.totalPackets < WIRE_MAX
    ensures var b, m := t.opts.blksize, t.totalPackets;
            var chunk := Block(file, b, m + 1);
            var (t2, p) := ProduceData(t.(fileOffset := t.fileOffset + |chunk|), chunk);
            && p == Some(Data(Wire(m + 1), chunk))
            && t2.(bytesSent := t2.bytesSent + |chunk|) == Sent(t, file, 1, if |chunk| < b then SendLast else Send)
            && SenderOk(t2.(bytesSent := t2.bytesSent + |chunk|), file)
  {
    hide Wire, Block, ReadAt, SenderOk;
    NextOffset(t, file);
    ProducesBlock(t, Block(file, t.opts.blksize, t.totalPackets + 1), file);
    SentIsOk(t, file);
  }

  /** The packet that is made of a chunk no longer than a block. */
  lemma ProducesBlock(t: Core, chunk: bytes, file: bytes)
    requires SenderOk(t, file) && |chunk| <= t.opts.blksize && t.phase.Send?
    requires t.wrap || t.totalPackets < WIRE_MAX
    ensures ProduceData(t.(fileOffset := t.fileOffset + |chunk|), chunk) ==
            (t.(fileOffset := t.fileOffset + |chunk|, blockNum := Wire(t.totalPackets + 1),
                totalPackets := t.totalPackets + 1,
                phase := if |chunk| < t.opts.blksize then SendLast else Send),
             Some(Data(Wire(t.totalPackets + 1), chunk)))
  {
    hide Wire, BlockCount;
    BlockNumberingAgrees(t.totalPackets);
    BlockNumberingAgrees(t.totalPackets + 1);
    assert [] + chunk == chunk && chunk[..|chunk|] == chunk && chunk[|chunk|..] == [];
  }

  /** Reading the next block moves the offset to the end of it. */
  lemma NextOffset(t: Core, file: bytes)
    requires SenderOk(t, file) && t.totalPackets * t.opts.blksize < |file|
    ensures var b, m := t.opts.blksize, t.totalPackets;
            && |Block(file, b, m + 1)| <= b
            && t.fileOffset + |Block(file, b, m + 1)| == Min((m + 1) * b, |file|)
            && (|Block(file, b, m + 1)| < b <==> (m + 1) * b > |file|)
            && t.fileOffset == t.bytesSent && t.sendBuffer == []
  {
    hide Wire, BlockCount;
    assert (t.totalPackets + 1) * t.opts.blksize == t.totalPackets * t.opts.blksize + t.opts.blksize;
  }

  lemma SentIsOk(t: Core, file: bytes)
    requires SenderOk(t, file) && t.totalPackets * t.opts.blksize < |file|
    requires t.wrap || t.totalPackets < WIRE_MAX
    ensures SenderOk(Sent(t, file, 1, if (t.totalPackets + 1) * t.opts.blksize > |file| then SendLast else Send), file)
  {
    hide Wire;
    var b, n, m := t.opts.blksize, |file|, t.totalPackets;
    BlockCounts(n, b, m);
    BlockCounts(n, b, m + 1);
    MulMono(m, m + 1, b);
  }

  lemma SendLoopKeepsOpts(t: Core, file: bytes, sent: nat)
    ensures SendLoop(t, file, sent).0.opts == t.opts
    decreases if t.phase.Send? then 1 else 0, |file| - t.fileOffset
  {
  }
}
