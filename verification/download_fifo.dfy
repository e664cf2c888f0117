/** A download over a network that delivers every packet once and in order: it always
    comes to rest, and this says exactly when it has then succeeded. */
module DownloadFifo {
  import opened Bytes
  import opened Blocks
  import opened Options
  import opened Transfer
  import opened Emissions
  import opened TftpServer
  import opened TftpClient
  import opened Download

  /** The two ends and the packets under way.  `taken` and `dataAcks` count the blocks the
      client has written and the ACKs it has sent for DATA; no code reads them. */
  datatype Link = Link(
    server: Core,
    registered: bool,
    client: Getter,
    toClient: seq<Packet>,
    toServer: seq<Packet>,
    taken: nat,
    dataAcks: nat)

  function Open(file: bytes, opts: Opts, wrap: bool, requested: Opts, withOptions: bool): Link {
    var (t, result) := AdvanceSend(InitRRQ(Fresh(true, wrap, opts), withOptions));
    if result.Some? then Link(t, true, NewGetter(requested), result.value.packets, [], 0, 0)
    else
      var (t', ps) := SendLoop(t, file, 0);
      Link(t', true, NewGetter(requested), ps, [], 0, 0)
  }

  predicate AtRest(s: Link) {
    s.toClient == [] && s.toServer == []
  }

  function ClientTurn(s: Link): Link
    requires s.toClient != []
  {
    var p := s.toClient[0];
    var (c, replies) := GetMessage(s.client, p);
    Link(s.server, s.registered, c, s.toClient[1..], s.toServer + replies,
         if |c.file| > |s.client.file| then s.taken + 1 else s.taken,
         if p.Data? then s.dataAcks + |replies| else s.dataAcks)
  }

  function ServerTurn(s: Link, file: bytes): Link
    requires s.toServer != []
  {
    var p := s.toServer[0];
    var s' := s.(toServer := s.toServer[1..]);
    if !s.registered then s'.(toClient := s.toClient + [NO_ACTIVE_TRANSFER])
    else if p.Ack? then
      var h := HandleTransferAck(s.server, file, p.block);
      s'.(server := h.t, registered := h.registered, toClient := s.toClient + h.packets)
    else s'
  }

  /** The network picks the direction when both have a packet under way. */
  function Turn(s: Link, file: bytes, clientFirst: bool): Link
    requires !AtRest(s)
  {
    if s.toClient != [] && (clientFirst || s.toServer == []) then ClientTurn(s) else ServerTurn(s, file)
  }

  // ---- The invariant, phase by phase -----------------------------------------------------

  ghost predicate Common(s: Link, file: bytes) {
    var b, w := s.server.opts.blksize, s.server.opts.windowsize;
    && 0 < b && 0 < w
    && OpenOnData(s.client).file == s.client.file
    && BlockSize(OpenOnData(s.client).validated) == b && WindowSize(OpenOnData(s.client).validated) == w
    && s.client.file == FirstBlocks(file, b, s.taken)
    && s.client.bytesReceived == |s.client.file|
    && s.client.blockNum == Wire(s.taken)
    && s.server.errorCode == NOT_DEFINED
  }

  /** The client is in the middle of the file, `packetsInWindow` blocks after its last ACK. */
  ghost predicate Receiving(s: Link, file: bytes) {
    && Common(s, file)
    && s.client.status.Running?
    && s.taken * s.server.opts.blksize <= |file|
    && s.client.packetsInWindow < s.server.opts.windowsize
    && s.dataAcks * s.server.opts.windowsize + s.client.packetsInWindow == s.taken
  }

  ghost predicate Finished(s: Link, file: bytes) {
    && Common(s, file)
    && s.client.status.Resolved?
    && |file| % s.server.opts.blksize != 0 && s.taken == |file| / s.server.opts.blksize + 1
    && 0 < s.dataAcks
    && (s.dataAcks - 1) * s.server.opts.windowsize < s.taken <= s.dataAcks * s.server.opts.windowsize
  }

  /** The OACK is under way. */
  ghost predicate Offering(s: Link, file: bytes) {
    && s.toClient == [Oack(ValidatedToRaw(s.server.opts))] && s.toServer == []
    && s.client == NewGetter(s.client.requested) && s.taken == 0 && s.dataAcks == 0
    && Acceptable(s.server.opts) && s.server.errorCode == NOT_DEFINED
    && s.registered && s.server.phase.Send? && s.server.totalPackets == 0 && SenderOk(s.server, file)
  }

  /** An ACK of everything sent is under way. */
  ghost predicate Acking(s: Link, file: bytes) {
    && s.toClient == [] && s.toServer == [Ack(Wire(s.taken))]
    && s.registered && SenderOk(s.server, file) && s.server.totalPackets == s.taken
    && ((Receiving(s, file) && s.server.phase.Send? && s.client.packetsInWindow == 0)
        || (Finished(s, file) && s.server.phase.SendLast?))
  }

  /** The rest of a window is under way. */
  ghost predicate Flowing(s: Link, file: bytes) {
    var base := s.taken - s.client.packetsInWindow;
    && Receiving(s, file) && s.toServer == []
    && s.registered && SenderOk(s.server, file)
    && s.taken < s.server.totalPackets <= base + s.server.opts.windowsize
    && s.toClient == Emission(file, s.server.opts.blksize, s.taken, s.server.totalPackets - s.taken)
    && (|| (s.server.phase.Send? && s.server.totalPackets == base + s.server.opts.windowsize)
        || (s.server.phase.SendLast? && (|| s.server.totalPackets < base + s.server.opts.windowsize
                                         || s.server.totalPackets * s.server.opts.blksize > |file|)))
  }

  /** The block numbers have run out, in strict RFC 1350 mode. */
  ghost predicate Failing(s: Link, file: bytes) {
    && Receiving(s, file) && s.toServer == []
    && !s.server.wrap && WIRE_MAX * s.server.opts.blksize < |file|
    && s.taken <= WIRE_MAX < s.taken - s.client.packetsInWindow + s.server.opts.windowsize
    && s.server.phase.Done?
    && s.toClient == Emission(file, s.server.opts.blksize, s.taken, WIRE_MAX - s.taken) + [Err(NOT_DEFINED, OUT_OF_RANGE)]
  }

  /** Success. */
  ghost predicate Complete(s: Link, file: bytes) {
    var b, w := s.server.opts.blksize, s.server.opts.windowsize;
    && 0 < b && 0 < w
    && s.client.status.Resolved? && s.client.file == file && s.client.bytesReceived == |file|
    && s.server.phase.Done? && !s.registered && s.server.errorCode == NOT_DEFINED
    && s.server.bytesSent == |file|
    && s.server.totalPackets == |file| / b + 1
    && s.dataAcks == (s.server.totalPackets + w - 1) / w
  }

  /** The client waits for a last block that the server does not send, because the file
      ended with a full one; the server waits for the ACK of it. */
  ghost predicate Stalled(s: Link, file: bytes) {
    && s.client.status.Running? && s.client.file == file
    && s.server.phase.SendLast? && s.registered
    && 0 < s.server.opts.blksize && |file| % s.server.opts.blksize == 0
  }

  ghost predicate Failed(s: Link, file: bytes) {
    && s.client.status.Rejected? && s.client.file < file
    && 0 < s.server.opts.blksize && !s.server.wrap && WIRE_MAX * s.server.opts.blksize < |file|
  }

  ghost predicate Inv(s: Link, file: bytes) {
    || Offering(s, file) || Acking(s, file) || Flowing(s, file) || Failing(s, file)
    || (AtRest(s) && (|| (Complete(s, file) && Completable(file, s.server.opts.blksize, s.server.wrap))
                      || Stalled(s, file) || Failed(s, file)))
  }

  /** The size of the file lets a lossless download succeed. */
  predicate Completable(file: bytes, b: nat, wrap: bool)
    requires 0 < b
  {
    |file| % b != 0 && (wrap || |file| < WIRE_MAX * b)
  }

  /** Every turn makes it smaller. */
  ghost function Measure(s: Link, file: bytes): int
    requires 0 < s.server.opts.blksize
  {
    3 * (|file| / s.server.opts.blksize + 1 - s.taken)
    + 2 * |s.toServer|
    + (if s.toClient != [] && !s.toClient[|s.toClient| - 1].Data? then 3 else 0)
    + (if s.server.phase.Send? then 4 else 0)
  }

  lemma InvBounds(s: Link, file: bytes)
    requires Inv(s, file)
    ensures 0 < s.server.opts.blksize
    ensures !AtRest(s) ==> Measure(s, file) >= 0
  {
    if !AtRest(s) {
      assert Receiving(s, file) || Finished(s, file) || Offering(s, file);
      TakenBound(s, file);
    }
  }

  lemma TakenBound(s: Link, file: bytes)
    requires Receiving(s, file) || Finished(s, file) || Offering(s, file)
    ensures 0 < s.server.opts.blksize && s.taken <= |file| / s.server.opts.blksize + 1
  {
    WholeBlocks(|file|, s.server.opts.blksize, s.taken);
  }

  // ---- The server's turn -----------------------------------------------------------------

  /** A window leaves the server. */
  lemma WindowStarts(s: Link, file: bytes, t: Core, t': Core, ps: seq<Packet>)
    requires Receiving(s, file) && s.client.packetsInWindow == 0
    requires SenderOk(t, file) && t.phase.Send? && t.totalPackets == s.taken && t.opts == s.server.opts
    requires t.errorCode == NOT_DEFINED && WindowOf(t, file, 0, t', ps)
    requires t'.opts == t.opts && t'.wrap == t.wrap && t'.errorCode == NOT_DEFINED
    ensures var s' := s.(server := t', registered := true, toClient := ps, toServer := []);
            Flowing(s', file) || Failing(s', file) || (AtRest(s') && Stalled(s', file))
    ensures ps != [] && !ps[|ps| - 1].Data? ==> !t'.phase.Send?
  {
    var b, m := t.opts.blksize, t.totalPackets;
    WholeBlocks(|file|, b, m);
    var s' := s.(server := t', registered := true, toClient := ps, toServer := []);
    assert Receiving(s', file);
    var count := WindowLeft(t, file, 0);
    if !t.wrap && m + count > WIRE_MAX {
      WholeBlocks(|file|, b, WIRE_MAX);
      assert WIRE_MAX < BlockCount(|file|, b);
    } else if count == 0 {
      assert ps == [] && m * b == |file|;
    }
  }

  lemma SendLoopKeeps(t: Core, file: bytes, sent: nat)
    ensures var t' := SendLoop(t, file, sent).0;
            && t'.wrap == t.wrap && t'.opts == t.opts
            && (t.errorCode == NOT_DEFINED ==> t'.errorCode == NOT_DEFINED)
    decreases if t.phase.Send? then 1 else 0, |file| - t.fileOffset
  {
  }

  lemma WindowTurn(s: Link, file: bytes)
    requires Acking(s, file) && Receiving(s, file)
    ensures var s' := ServerTurn(s, file);
            && (Flowing(s', file) || Failing(s', file) || (AtRest(s') && Stalled(s', file)))
            && s'.taken == s.taken && s'.server.opts == s.server.opts && s'.toServer == []
            && (s'.toClient != [] && !s'.toClient[|s'.toClient| - 1].Data? ==> !s'.server.phase.Send?)
  {
    hide Wire, SendLoop, WindowOf, Emission, FirstBlocks;
    BlockNumberingAgrees(s.taken);
    var t1 := HandleAck(s.server, Wire(s.taken)).0;
    assert t1 == s.server || t1 == s.server.(lastAcked := Wire(s.taken));
    WindowSent(t1, file, 0);
    SendLoopKeeps(t1, file, 0);
    var r := SendLoop(t1, file, 0);
    WindowStarts(s, file, t1, r.0, r.1);
    assert [] + r.1 == r.1;
    assert ServerTurn(s, file) == s.(server := r.0, registered := true, toClient := r.1, toServer := []);
  }

  lemma LastAckTurn(s: Link, file: bytes)
    requires Acking(s, file) && Finished(s, file)
    ensures var s' := ServerTurn(s, file);
            && AtRest(s') && Complete(s', file) && Completable(file, s.server.opts.blksize, s.server.wrap)
            && s'.taken == s.taken && s'.server.opts == s.server.opts && s'.server.wrap == s.server.wrap
  {
    var b, w := s.server.opts.blksize, s.server.opts.windowsize;
    WholeBlocks(|file|, b, WIRE_MAX);
    WholeBlocks(|file|, b, s.taken);
    CeilUnique(s.taken, w, s.dataAcks);
    BlockNumberingAgrees(s.taken);
  }

  // ---- The client's turn -----------------------------------------------------------------

  lemma OfferTurn(s: Link, file: bytes)
    requires Offering(s, file)
    ensures var s' := ClientTurn(s);
            && Acking(s', file) && Receiving(s', file)
            && s'.taken == s.taken && s'.server == s.server && |s'.toServer| == 1
  {
    ValidateRaw(s.server.opts);
    var s' := ClientTurn(s);
    assert s.toClient[1..] == [] && [] + [Ack(0)] == [Ack(0)];
    assert s'.toServer == [Ack(Wire(0))] && s'.toClient == [];
    assert FirstBlocks(file, s.server.opts.blksize, 0) == [];
  }

  /** The link after the client has taken the block it waits for. */
  ghost function Took(s: Link, file: bytes, rest: seq<Packet>): Link {
    var b := s.server.opts.blksize;
    var last := (s.taken + 1) * b > |file|;
    var full := last || s.client.packetsInWindow + 1 >= s.server.opts.windowsize;
    var c := OpenOnData(s.client).(file := FirstBlocks(file, b, s.taken + 1),
                                   bytesReceived := s.client.bytesReceived + |Block(file, b, s.taken + 1)|,
                                   blockNum := Wire(s.taken + 1),
                                   packetsInWindow := if full then 0 else s.client.packetsInWindow + 1,
                                   status := if last then Resolved else Running);
    Link(s.server, s.registered, c, rest, if full then [Ack(Wire(s.taken + 1))] else [],
         s.taken + 1, if full then s.dataAcks + 1 else s.dataAcks)
  }

  /** The next block of the file is at the head of the line. */
  lemma NextInLine(s: Link, file: bytes, left: nat, tail: seq<Packet>)
    requires Receiving(s, file) && 0 < left && s.toServer == []
    requires s.toClient == Emission(file, s.server.opts.blksize, s.taken, left) + tail
    requires s.taken * s.server.opts.blksize < |file|
    ensures ClientTurn(s) == Took(s, file, Emission(file, s.server.opts.blksize, s.taken + 1, left - 1) + tail)
  {
    var b := s.server.opts.blksize;
    var p := Data(Wire(s.taken + 1), Block(file, b, s.taken + 1));
    EmissionCons(file, b, s.taken, left - 1);
    assert s.toClient == [p] + (Emission(file, b, s.taken + 1, left - 1) + tail);
    assert s.toClient[0] == p && s.toClient[1..] == Emission(file, b, s.taken + 1, left - 1) + tail;
    GetsNext(s.client, file, b, s.taken);
    ExtendBlocks(file, b, s.taken);
    LastIsShort(file, b, s.taken);
  }

  lemma LastIsShort(file: bytes, b: nat, k: nat)
    requires 0 < b && k * b < |file|
    ensures |Block(file, b, k + 1)| < b <==> (k + 1) * b > |file|
    ensures |Block(file, b, k + 1)| > 0
  {
    assert (k + 1) * b == k * b + b;
  }

  lemma TookBlock(s: Link, file: bytes, rest: seq<Packet>)
    requires Receiving(s, file) && s.taken * s.server.opts.blksize < |file|
    ensures var s' := Took(s, file, rest);
            if (s.taken + 1) * s.server.opts.blksize > |file| then Finished(s', file) else Receiving(s', file)
  {
    hide Wire, Block, FirstBlocks;
    var b, w := s.server.opts.blksize, s.server.opts.windowsize;
    ExtendBlocks(file, b, s.taken);
    var s' := Took(s, file, rest);
    assert Common(s', file);
    assert (s.dataAcks + 1) * w == s.dataAcks * w + w;
    if (s.taken + 1) * b > |file| {
      LastBlock(|file|, b, s.taken);
    }
  }

  /** What a taken block leaves alone, and when it is acknowledged. */
  lemma TookSame(s: Link, file: bytes, rest: seq<Packet>)
    ensures var s' := Took(s, file, rest);
            && s'.server == s.server && s'.registered == s.registered && s'.toClient == rest && s'.taken == s.taken + 1
            && |s'.toServer| <= 1 && (s'.toServer != [] ==> s'.toServer == [Ack(Wire(s.taken + 1))])
            && (s'.toServer == [] <==>
                  && (s.taken + 1) * s.server.opts.blksize <= |file|
                  && s.client.packetsInWindow + 1 < s.server.opts.windowsize)
            && s'.client.packetsInWindow == if s'.toServer == [] then s.client.packetsInWindow + 1 else 0
  {
  }

  lemma BlockTurn(s: Link, file: bytes)
    requires Flowing(s, file)
    ensures var s' := ClientTurn(s);
            && (Acking(s', file) || Flowing(s', file) || (AtRest(s') && Stalled(s', file)))
            && s'.taken == s.taken + 1 && s'.server == s.server && |s'.toServer| <= 1
            && (s'.toClient != [] ==> s'.toClient[|s'.toClient| - 1].Data?)
  {
    hide Wire, Block;
    var b, left := s.server.opts.blksize, s.server.totalPackets - s.taken;
    var rest := Emission(file, b, s.taken + 1, left - 1);
    assert s.toClient == s.toClient + [] && rest + [] == rest;
    WholeBlocks(|file|, b, s.taken);
    WholeBlocks(|file|, b, s.taken + 1);
    SentSoFar(s.server, file, s.taken);
    NextInLine(s, file, left, []);
    TookBlock(s, file, rest);
    var s' := ClientTurn(s);
    assert s' == Took(s, file, rest) && |rest| == left - 1;
    hide ClientTurn, Emission, Took, FirstBlocks;
    TookSame(s, file, rest);
    if s'.toServer != [] {
      assert s'.taken == s.server.totalPackets;
      assert Acking(s', file);
    } else if left > 1 {
      assert Flowing(s', file);
    } else {
      assert Stalled(s', file);
    }
  }

  /** Of the blocks sent, only the last can be short, and only it ends the sending early. */
  lemma SentSoFar(t: Core, file: bytes, k: nat)
    requires SenderOk(t, file) && (t.phase.Send? || t.phase.SendLast?) && k < t.totalPackets
    ensures var b := t.opts.blksize;
            && k * b < |file|
            && ((k + 1) * b > |file| ==> t.totalPackets == k + 1 && t.phase.SendLast?)
            && ((k + 1) * b < |file| && t.phase.SendLast? ==> k + 1 < t.totalPackets)
  {
    var b := t.opts.blksize;
    assert (k + 1) * b == k * b + b;
    if t.phase.Send? {
      MulMono(k + 1, t.totalPackets, b);
    } else {
      BlockCounts(|file|, b, k);
      BlockCounts(|file|, b, k + 1);
    }
  }

  lemma FailingTurn(s: Link, file: bytes)
    requires Failing(s, file)
    ensures var s' := ClientTurn(s);
            && (Failing(s', file) || (AtRest(s') && Failed(s', file)))
            && s'.server == s.server && s'.toServer == []
            && s'.taken == (if |s.toClient| == 1 then s.taken else s.taken + 1)
            && |s'.toClient| == |s.toClient| - 1
            && (s'.toClient != [] ==> !s'.toClient[|s'.toClient| - 1].Data?)
  {
    hide Wire, Block;
    var b, left := s.server.opts.blksize, WIRE_MAX - s.taken;
    var e := [Err(NOT_DEFINED, OUT_OF_RANGE)];
    if left == 0 {
      assert s.toClient == e;
    } else {
      MulMono(s.taken + 1, WIRE_MAX, b);
      assert (s.taken + 1) * b == s.taken * b + b;
      NextInLine(s, file, left, e);
      TookBlock(s, file, Emission(file, b, s.taken + 1, left - 1) + e);
    }
  }

  // ---- Every run -------------------------------------------------------------------------

  /** A turn made progress. */
  ghost predicate Progress(s: Link, s': Link, file: bytes) {
    && s'.server.opts == s.server.opts && s'.server.wrap == s.server.wrap
    && 0 < s.server.opts.blksize && Measure(s', file) < Measure(s, file)
  }

  lemma ServerProgress(s: Link, file: bytes)
    requires Acking(s, file)
    ensures Inv(ServerTurn(s, file), file) && Progress(s, ServerTurn(s, file), file)
  {
    SendLoopKeeps(HandleAck(s.server, Wire(s.taken)).0, file, 0);
    if Finished(s, file) {
      LastAckTurn(s, file);
    } else {
      WindowTurn(s, file);
    }
  }

  lemma ClientProgress(s: Link, file: bytes)
    requires Offering(s, file) || Flowing(s, file) || Failing(s, file)
    ensures Inv(ClientTurn(s), file) && Progress(s, ClientTurn(s), file)
  {
    if Offering(s, file) {
      OfferTurn(s, file);
    } else if Flowing(s, file) {
      BlockTurn(s, file);
    } else {
      FailingTurn(s, file);
    }
  }

  lemma TurnKeepsInv(s: Link, file: bytes, clientFirst: bool)
    requires Inv(s, file) && !AtRest(s)
    ensures Inv(Turn(s, file, clientFirst), file) && Progress(s, Turn(s, file, clientFirst), file)
  {
    if Acking(s, file) {
      ServerProgress(s, file);
    } else {
      ClientProgress(s, file);
    }
  }

  /** The run that the network's choices `picks` lead to, until nothing is under way. */
  ghost function Finish(s: Link, file: bytes, picks: nat -> bool, i: nat): Link
    requires Inv(s, file)
    decreases if AtRest(s) then 0 else Measure(s, file) + 1
  {
    if AtRest(s) then s
    else
      TurnKeepsInv(s, file, picks(i));
      InvBounds(s, file);
      InvBounds(Turn(s, file, picks(i)), file);
      Finish(Turn(s, file, picks(i)), file, picks, i + 1)
  }

  lemma OpenInv(file: bytes, opts: Opts, wrap: bool, requested: Opts, withOptions: bool)
    requires Agreed(opts, requested, withOptions)
    ensures var s := Open(file, opts, wrap, requested, withOptions);
            Inv(s, file) && s.server.opts == opts && s.server.wrap == wrap
  {
    var t := AdvanceSend(InitRRQ(Fresh(true, wrap, opts), withOptions)).0;
    assert SenderOk(t, file);
    var s := Open(file, opts, wrap, requested, withOptions);
    if !withOptions {
      WindowSent(t, file, 0);
      SendLoopKeeps(t, file, 0);
      var r := SendLoop(t, file, 0);
      var s0 := Link(t, true, NewGetter(requested), [], [], 0, 0);
      assert FirstBlocks(file, opts.blksize, 0) == [];
      assert Receiving(s0, file);
      WindowStarts(s0, file, t, r.0, r.1);
      assert s == s0.(server := r.0, registered := true, toClient := r.1, toServer := []);
    }
  }

  lemma {:induction false} FinishOutcome(s: Link, file: bytes, picks: nat -> bool, i: nat)
    requires Inv(s, file)
    ensures var e := Finish(s, file, picks, i);
            && AtRest(e) && Inv(e, file)
            && e.server.opts == s.server.opts && e.server.wrap == s.server.wrap
    decreases if AtRest(s) then 0 else Measure(s, file) + 1
  {
    if !AtRest(s) {
      TurnKeepsInv(s, file, picks(i));
      InvBounds(s, file);
      InvBounds(Turn(s, file, picks(i)), file);
      FinishOutcome(Turn(s, file, picks(i)), file, picks, i + 1);
    }
  }

  /** On a lossless network every download comes to rest, and it has then succeeded - the
      files are equal, both ends know it, size / blksize + 1 DATA packets were sent and one
      ACK for each window of them - exactly when the file does not end with a full block
      (an empty file does) and the block numbers did not run out. */
  lemma DownloadCompletesIff(
      file: bytes, opts: Opts, wrap: bool, requested: Opts, withOptions: bool, picks: nat -> bool)
    requires Agreed(opts, requested, withOptions)
    ensures Inv(Open(file, opts, wrap, requested, withOptions), file)
    ensures var e := Finish(Open(file, opts, wrap, requested, withOptions), file, picks, 0);
            && AtRest(e)
            && (Complete(e, file) <==> Completable(file, opts.blksize, wrap))
            && (e.client.status.Resolved? <==> Complete(e, file))
            && (!Complete(e, file) ==> Stalled(e, file) || Failed(e, file))
  {
    OpenInv(file, opts, wrap, requested, withOptions);
    var s := Open(file, opts, wrap, requested, withOptions);
    FinishOutcome(s, file, picks, 0);
    var e := Finish(s, file, picks, 0);
    RestIsFinal(e, file);
  }

  /** At rest there are three outcomes, and the size of the file decides between them. */
  lemma RestIsFinal(e: Link, file: bytes)
    requires Inv(e, file) && AtRest(e)
    ensures Complete(e, file) || Stalled(e, file) || Failed(e, file)
    ensures 0 < e.server.opts.blksize
    ensures Complete(e, file) <==> Completable(file, e.server.opts.blksize, e.server.wrap)
  {
  }
}
