/** An upload over a network that delivers every packet once and in order: the client's
    `put` against the server's WRQ handlers.  It always comes to rest, and this says
    exactly when it has then succeeded. */
module UploadFifo {
  import opened Bytes
  import opened Blocks
  import opened Options
  import opened Transfer
  import opened Emissions
  import opened TftpServer
  import opened TftpClient

  /** `disk` is the server's file; `got` counts the blocks it has accepted and `acked` logs
      that count for every ACK it has sent for them, and no code reads them. */
  datatype Link = Link(
    server: Core,
    registered: bool,
    disk: bytes,
    client: Putter,
    toServer: seq<Packet>,
    toClient: seq<Packet>,
    got: nat,
    acked: seq<nat>)

  /** The WRQ has been handled: an OACK or an ACK(0) is under way. */
  function Open(opts: Opts, wrap: bool, requested: Opts, withOptions: bool): Link {
    var (t, result) := AdvanceSend(InitWRQ(Fresh(false, wrap, opts), withOptions));
    Link(t, true, [], NewPutter(requested), [], if result.Some? then result.value.packets else [], 0, [])
  }

  predicate AtRest(s: Link) {
    s.toServer == [] && s.toClient == []
  }

  function ServerTurn(s: Link): Link
    requires s.toServer != []
  {
    var p := s.toServer[0];
    var s' := s.(toServer := s.toServer[1..]);
    if !s.registered then s'.(toClient := s.toClient + [NO_ACTIVE_TRANSFER])
    else if p.Data? then
      var (h, disk) := HandleTransferData(s.server, s.disk, p.block, p.data);
      var got := if h.t.bytesReceived > s.server.bytesReceived then s.got + 1 else s.got;
      s'.(server := h.t, registered := h.registered, disk := disk, toClient := s.toClient + h.packets, got := got,
          acked := if h.packets != [] && h.packets[0].Ack? then s.acked + [got] else s.acked)
    else s'
  }

  function ClientTurn(s: Link, source: bytes): Link
    requires s.toClient != []
  {
    var (c, ps) := PutMessage(s.client, source, s.toClient[0]);
    s.(client := c, toServer := s.toServer + ps, toClient := s.toClient[1..])
  }

  function Turn(s: Link, source: bytes, clientFirst: bool): Link
    requires !AtRest(s)
  {
    if s.toClient != [] && (clientFirst || s.toServer == []) then ClientTurn(s, source) else ServerTurn(s)
  }

  /** The block number the server waits for. */
  function Awaited(wrap: bool, got: nat): nat {
    if wrap then Wire(got + 1) else got + 1
  }

  // ---- The invariant, phase by phase -----------------------------------------------------

  ghost predicate Common(s: Link, source: bytes) {
    var b, w := s.server.opts.blksize, s.server.opts.windowsize;
    && 0 < b && 0 < w
    && s.disk == FirstBlocks(source, b, s.got) && s.server.bytesReceived == |s.disk|
    && s.server.errorCode == NOT_DEFINED
    && AckedAt(s.acked, s.got, w)
  }

  /** ACKs have been sent at the multiples of w, and for the last block. */
  ghost predicate AckedAt(acked: seq<nat>, got: nat, w: nat) {
    forall j :: 0 <= j < |acked| ==> acked[j] == Min((j + 1) * w, got)
  }

  lemma AckedMore(acked: seq<nat>, got: nat, w: nat, ack: bool)
    requires AckedAt(acked, got, w) && |acked| * w <= got < |acked| * w + w
    requires ack ==> got + 1 <= |acked| * w + w
    ensures AckedAt(if ack then acked + [got + 1] else acked, got + 1, w)
  {
    forall j | 0 <= j < |acked| ensures acked[j] == Min((j + 1) * w, got + 1) {
      MulMono(j + 1, |acked|, w);
    }
    assert (|acked| + 1) * w == |acked| * w + w;
  }

  /** The server waits for block got + 1; everything before it was a full block. */
  ghost predicate Waiting(s: Link, source: bytes) {
    && Common(s, source)
    && s.registered && s.server.phase.Recv? && s.server.blockNum == Awaited(s.server.wrap, s.got)
    && s.got * s.server.opts.blksize <= |source|
    && s.server.lastAcked == |s.acked| * s.server.opts.windowsize <= WIRE_MAX
    && s.server.lastAcked <= s.got
  }

  ghost predicate Sending(s: Link, source: bytes) {
    && 0 < s.server.opts.blksize
    && s.client.status.Running? && s.client.isOpen && s.client.validated.Some?
    && BlockSize(s.client.validated) == s.server.opts.blksize
    && WindowSize(s.client.validated) == s.server.opts.windowsize
    && PutterOk(s.client, source)
  }

  ghost predicate Starting(s: Link, source: bytes) {
    && Waiting(s, source) && s.got == 0 && s.acked == [] && s.toServer == []
    && s.client == NewPutter(s.client.requested)
    && (|| (s.toClient == [Oack(ValidatedToRaw(s.server.opts))] && Acceptable(s.server.opts))
        || (s.toClient == [Ack(0)] && s.client.requested.blksize == s.server.opts.blksize
            && s.client.requested.windowsize == s.server.opts.windowsize))
  }

  /** The rest of a window is under way. */
  ghost predicate Flowing(s: Link, source: bytes) {
    var m := s.client.blockNum;
    && Waiting(s, source) && Sending(s, source) && s.toClient == []
    && s.got < m <= s.server.lastAcked + s.server.opts.windowsize
    && (m == s.server.lastAcked + s.server.opts.windowsize || m == BlockCount(|source|, s.server.opts.blksize))
    && s.toServer == Emission(source, s.server.opts.blksize, s.got, m - s.got)
  }

  /** An ACK of everything sent is under way. */
  ghost predicate Acking(s: Link, source: bytes) {
    && Sending(s, source) && s.toServer == [] && s.got == s.client.blockNum
    && s.toClient == [Ack(Wire(s.got))]
    && ((Waiting(s, source) && s.server.lastAcked == s.got) || Received(s, source))
  }

  /** The short last block has come. */
  ghost predicate Received(s: Link, source: bytes) {
    var b, w := s.server.opts.blksize, s.server.opts.windowsize;
    && Common(s, source)
    && !s.registered && s.server.phase.Done?
    && Uploadable(source, b, w, s.server.wrap)
    && s.got == |source| / b + 1
    && |s.acked| == (s.got + w - 1) / w
  }

  /** Strict RFC 1350 mode: the 65536th block was taken for a mismatch. */
  ghost predicate Broken(s: Link, source: bytes) {
    && !s.registered
    && (s.client.status.Rejected? || (s.client.status.Running? && s.toClient != []))
    && (forall i :: 0 <= i < |s.toClient| ==> s.toClient[i].Err?)
    && 0 < s.server.opts.blksize && 0 < s.server.opts.windowsize
    && !Uploadable(source, s.server.opts.blksize, s.server.opts.windowsize, s.server.wrap)
    && s.client.blockNum <= BlockCount(|source|, s.server.opts.blksize)
  }

  /** How many blocks an upload can have: in the window that passes number 65535 the
      server waits for a number that never comes to send its ACK. */
  function BlockLimit(w: nat, wrap: bool): nat
    requires 0 < w
  {
    if wrap then (WIRE_MAX / w + 1) * w else WIRE_MAX
  }

  /** The size of the file lets a lossless upload succeed. */
  predicate Uploadable(source: bytes, b: nat, w: nat, wrap: bool)
    requires 0 < b && 0 < w
  {
    |source| % b != 0 && |source| / b < BlockLimit(w, wrap)
  }

  ghost predicate Complete(s: Link, source: bytes) {
    var b, w := s.server.opts.blksize, s.server.opts.windowsize;
    && 0 < b && 0 < w
    && s.client.status.Resolved? && s.client.bytesSent == |source|
    && s.server.phase.Done? && !s.registered && s.server.errorCode == NOT_DEFINED
    && s.disk == source && s.server.bytesReceived == |source|
    && s.got == |source| / b + 1 && |s.acked| == (s.got + w - 1) / w && AckedAt(s.acked, s.got, w)
  }

  /** The server goes on waiting, whether the client has resolved or not. */
  ghost predicate LeftWaiting(s: Link, source: bytes) {
    && Waiting(s, source)
    && !Uploadable(source, s.server.opts.blksize, s.server.opts.windowsize, s.server.wrap)
    && (s.client.status.Running? || (s.client.status.Resolved? && s.disk == source))
  }

  ghost predicate Final(s: Link, source: bytes) {
    || (Complete(s, source) && Uploadable(source, s.server.opts.blksize, s.server.opts.windowsize, s.server.wrap))
    || LeftWaiting(s, source)
    || (Broken(s, source) && s.client.status.Rejected?)
  }

  ghost predicate Inv(s: Link, source: bytes) {
    || Starting(s, source) || Flowing(s, source) || Acking(s, source) || Broken(s, source)
    || (AtRest(s) && Final(s, source))
  }

  ghost function Measure(s: Link, source: bytes): int
    requires 0 < s.server.opts.blksize
  {
    4 * (BlockCount(|source|, s.server.opts.blksize) - s.client.blockNum) + 3 * |s.toServer| + 2 * |s.toClient|
  }

  ghost predicate Progress(s: Link, s': Link, source: bytes) {
    && s'.server.opts == s.server.opts && s'.server.wrap == s.server.wrap
    && 0 < s.server.opts.blksize && Measure(s', source) < Measure(s, source)
  }

  // ---- The client's turn -----------------------------------------------------------------

  /** The client after it has been told to go on. */
  ghost function Went(s: Link, source: bytes, c: Putter): Link
    requires 0 < BlockSize(c.validated)
  {
    var count := PutLeft(c, source, 0);
    if count <= 0 then s.(client := c, toClient := [])
    else s.(client := PutSent(c, source, count), toClient := [],
            toServer := Emission(source, BlockSize(c.validated), c.blockNum, count))
  }

  lemma WindowGoes(s: Link, source: bytes, c: Putter)
    requires Waiting(s, source) && Sending(s.(client := c), source) && s.toServer == []
    requires s.got == c.blockNum == s.server.lastAcked
    ensures SendNextWindow(c, source).0 == Went(s, source, c).client
    ensures [] + SendNextWindow(c, source).1 == Went(s, source, c).toServer
    ensures var s' := Went(s, source, c);
            && (Flowing(s', source) || (AtRest(s') && LeftWaiting(s', source) && |source| % s.server.opts.blksize == 0))
            && Measure(s', source) <= 4 * (BlockCount(|source|, s.server.opts.blksize) - c.blockNum)
  {
    PutWindowSent(c, source, 0);
    var b := s.server.opts.blksize;
    assert PutSent(c, source, 0) == c;
    assert Emission(source, b, c.blockNum, 0) == [];
    WholeBlocks(|source|, b, s.got);
    BlockCounts(|source|, b, s.got);
  }

  /** The client with its file open and the server's options. */
  ghost function Opened(s: Link, opts: Opts): Putter {
    s.client.(validated := Some(opts), isOpen := true)
  }

  lemma StartTurn(s: Link, source: bytes)
    requires Starting(s, source)
    ensures Inv(ClientTurn(s, source), source) && Progress(s, ClientTurn(s, source), source)
  {
    hide PutMessage, SendNextWindow;
    var c := StartTurnOpens(s, source);
    var s' := ClientTurn(s, source);
    if s.toClient[0].Ack? && |source| == 0 {
      assert LeftWaiting(s', source);
    } else {
      WindowGoes(s, source, c);
      assert s' == Went(s, source, c);
    }
  }

  lemma StartTurnOpens(s: Link, source: bytes) returns (c: Putter)
    requires Starting(s, source)
    ensures Sending(s.(client := c), source) && c.blockNum == 0 && c.isOpen
    ensures PutMessage(s.client, source, s.toClient[0]) ==
            if s.toClient[0].Ack? && |source| == 0 then (c.(status := Resolved), []) else SendNextWindow(c, source)
  {
    if s.toClient[0].Oack? {
      ValidateRaw(s.server.opts);
      c := Opened(s, s.server.opts);
    } else {
      c := Opened(s, WithoutOack(s.client.requested));
    }
  }

  lemma AckTurn(s: Link, source: bytes)
    requires Acking(s, source)
    ensures Inv(ClientTurn(s, source), source) && Progress(s, ClientTurn(s, source), source)
  {
    var b := s.server.opts.blksize;
    var s' := ClientTurn(s, source);
    WholeBlocks(|source|, b, s.got);
    if Received(s, source) {
      assert Complete(s', source);
    } else if s.client.offset >= |source| {
      assert s.got * b == |source|;
      assert LeftWaiting(s', source);
    } else {
      WindowGoes(s, source, s.client);
      assert s' == Went(s, source, s.client);
    }
  }

  lemma ErrorTurn(s: Link, source: bytes)
    requires Broken(s, source) && s.toClient != []
    ensures Inv(ClientTurn(s, source), source) && Progress(s, ClientTurn(s, source), source)
  {
  }

  // ---- The server's turn -----------------------------------------------------------------

  lemma LateTurn(s: Link, source: bytes)
    requires Broken(s, source) && s.toServer != []
    ensures Inv(ServerTurn(s), source) && Progress(s, ServerTurn(s), source)
  {
  }

  /** The link after the server has accepted the block it waits for. */
  ghost function Took(s: Link, source: bytes, rest: seq<Packet>): Link {
    var b, k := s.server.opts.blksize, s.got + 1;
    var chunk := Block(source, b, k);
    var last := |chunk| < b;
    var acked := last || Wire(k) >= s.server.lastAcked + s.server.opts.windowsize;
    var t := s.server.(
      recvData := chunk,
      bytesReceived := s.server.bytesReceived + |chunk|,
      blockNum := if last then s.server.blockNum else Awaited(s.server.wrap, k),
      totalPackets := if last then s.server.totalPackets else s.server.totalPackets + 1,
      lastAcked := if acked then Wire(k) else s.server.lastAcked,
      phase := if last then Done else Recv);
    Link(t, !last, s.disk + chunk, s.client, rest, if acked then [Ack(Wire(k))] else [],
         k, if acked then s.acked + [k] else s.acked)
  }

  lemma BlockComes(s: Link, source: bytes)
    requires Flowing(s, source) && (s.server.wrap || s.got < WIRE_MAX)
    ensures s.got * s.server.opts.blksize < |source|
    ensures ServerTurn(s) ==
            Took(s, source, Emission(source, s.server.opts.blksize, s.got + 1, s.client.blockNum - s.got - 1))
  {
    var b, k, left := s.server.opts.blksize, s.got + 1, s.client.blockNum - s.got;
    EmissionCons(source, b, s.got, left - 1);
    var p := Data(Wire(k), Block(source, b, k));
    assert s.toServer[0] == p && s.toServer[1..] == Emission(source, b, k, left - 1);
    BlockCounts(|source|, b, s.got);
    BlockAccepted(s, source);
    assert [] + Took(s, source, s.toServer[1..]).toClient == Took(s, source, s.toServer[1..]).toClient;
  }

  lemma BlockAccepted(s: Link, source: bytes)
    requires Waiting(s, source) && (s.server.wrap || s.got < WIRE_MAX) && s.got * s.server.opts.blksize < |source|
    ensures var chunk := Block(source, s.server.opts.blksize, s.got + 1);
            var s' := Took(s, source, []);
            && 0 < |chunk|
            && HandleTransferData(s.server, s.disk, Wire(s.got + 1), chunk) ==
               (Handled(s'.server, s'.toClient, s'.registered), s'.disk)
  {
    BlockNumberingAgrees(s.got + 1);
    var chunk := Block(source, s.server.opts.blksize, s.got + 1);
    assert HandleData(s.server, Wire(s.got + 1), chunk) == AcceptData(s.server, chunk);
  }

  lemma TookMiddle(s: Link, source: bytes, rest: seq<Packet>)
    requires Flowing(s, source) && (s.server.wrap || s.got < WIRE_MAX)
    requires (s.got + 1) * s.server.opts.blksize <= |source|
    requires rest == Emission(source, s.server.opts.blksize, s.got + 1, s.client.blockNum - s.got - 1)
    ensures var s' := Took(s, source, rest);
            Flowing(s', source) || Acking(s', source) || (AtRest(s') && LeftWaiting(s', source))
  {
    AckAtWindowEnd(s.got + 1, s.server.opts.windowsize, |s.acked|);
    TookFull(s, source, rest);
    TookMore(s, source, Took(s, source, rest));
  }

  lemma TookMore(s: Link, source: bytes, s': Link)
    requires Flowing(s, source) && (s.server.wrap || s.got < WIRE_MAX)
    requires (s.got + 1) * s.server.opts.blksize <= |source|
    requires s' == Took(s, source, Emission(source, s.server.opts.blksize, s.got + 1, s.client.blockNum - s.got - 1))
    requires Waiting(s', source)
    requires Wire(s.got + 1) >= s.server.lastAcked + s.server.opts.windowsize <==>
             s.got + 1 == s.server.lastAcked + s.server.opts.windowsize && s.got + 1 <= WIRE_MAX
    ensures Flowing(s', source) || Acking(s', source) || (AtRest(s') && LeftWaiting(s', source))
  {
    var b, w, k := s.server.opts.blksize, s.server.opts.windowsize, s.got + 1;
    hide Wire, Block, FirstBlocks, AckedAt, BlockCount;
    assert k * b == s.got * b + b;
    WholeBlock(source, b, k);
    BlockNumberingAgrees(k);
    if Wire(k) >= s.server.lastAcked + w {
      assert Acking(s', source);
    } else if k < s.client.blockNum {
      assert Flowing(s', source);
    } else {
      TookAll(s, source);
      assert LeftWaiting(s', source);
    }
  }

  lemma TookFull(s: Link, source: bytes, rest: seq<Packet>)
    requires Waiting(s, source) && (s.server.wrap || s.got < WIRE_MAX)
    requires (s.got + 1) * s.server.opts.blksize <= |source|
    requires s.got < s.server.lastAcked + s.server.opts.windowsize
    ensures Waiting(Took(s, source, rest), source)
  {
    hide Wire, Awaited, Block, FirstBlocks, AckedAt;
    var b, w, k := s.server.opts.blksize, s.server.opts.windowsize, s.got + 1;
    AckedMore(s.acked, s.got, w, Wire(k) >= s.server.lastAcked + w);
    ExtendBlocks(source, b, s.got);
    WholeBlock(source, b, k);
    AckAtWindowEnd(k, w, |s.acked|);
    BlockNumberingAgrees(k);
    assert (|s.acked| + 1) * w == |s.acked| * w + w;
  }

  lemma WholeBlock(source: bytes, b: nat, k: nat)
    requires 1 <= k && k * b <= |source|
    ensures |Block(source, b, k)| == b
  {
    assert k * b == (k - 1) * b + b;
  }

  lemma TookLast(s: Link, source: bytes)
    requires Flowing(s, source) && (s.server.wrap || s.got < WIRE_MAX)
    requires s.got * s.server.opts.blksize < |source| < (s.got + 1) * s.server.opts.blksize
    ensures var s' := Took(s, source, Emission(source, s.server.opts.blksize, s.got + 1, s.client.blockNum - s.got - 1));
            Acking(s', source)
  {
    hide Wire, Block, FirstBlocks, AckedAt, Emission, Uploadable;
    var b, w := s.server.opts.blksize, s.server.opts.windowsize;
    LastBlock(|source|, b, s.got);
    ShortBlock(source, b, s.got);
    AckedMore(s.acked, s.got, w, true);
    LastCounts(s.got, w, |s.acked|, s.server.wrap);
    LastUploadable(source, b, w, s.server.wrap, s.got);
    ExtendBlocks(source, b, s.got);
    BlockCounts(|source|, b, s.client.blockNum - 1);
    NothingBehind(source, b, s.got + 1);
    var s' := Took(s, source, Emission(source, b, s.got + 1, s.client.blockNum - s.got - 1));
    assert s.client.blockNum == s.got + 1;
    assert Received(s', source);
  }

  lemma ShortBlock(source: bytes, b: nat, k: nat)
    requires k * b < |source| < (k + 1) * b
    ensures 0 < |Block(source, b, k + 1)| < b
  {
    assert (k + 1) * b == k * b + b;
  }

  lemma LastUploadable(source: bytes, b: nat, w: nat, wrap: bool, got: nat)
    requires 0 < b && 0 < w && |source| % b != 0 && got == |source| / b < BlockLimit(w, wrap)
    ensures Uploadable(source, b, w, wrap)
  {
  }

  lemma NothingBehind(source: bytes, b: nat, k: nat)
    requires 0 < b && |source| < k * b
    ensures BlockCount(|source|, b) <= k && Emission(source, b, k, 0) == []
  {
    BlockCounts(|source|, b, k);
  }

  /** The last block of the window that passes number 65535 is the last that can come. */
  lemma LastCounts(got: nat, w: nat, acks: nat, wrap: bool)
    requires 0 < w && acks * w <= got < acks * w + w && acks * w <= WIRE_MAX && (wrap || got < WIRE_MAX)
    ensures got < BlockLimit(w, wrap)
    ensures acks + 1 == (got + 1 + w - 1) / w
  {
    assert (acks + 1) * w == acks * w + w;
    CeilUnique(got + 1, w, acks + 1);
    WholeBlocks(WIRE_MAX, w, acks);
    MulMono(acks + 1, WIRE_MAX / w + 1, w);
  }

  /** An ACK for a full block goes out exactly at the end of a window that does not pass
      number 65535: after it, the number to reach is too large for the wire. */
  lemma AckAtWindowEnd(k: nat, w: nat, acks: nat)
    requires 0 < w && acks * w < k <= acks * w + w && acks * w <= WIRE_MAX
    ensures Wire(k) >= acks * w + w <==> k == acks * w + w && k <= WIRE_MAX
  {
    BlockNumberingAgrees(k);
    if k > WIRE_MAX {
      if w <= WIRE_MAX {
        assert k - 1 < 2 * WIRE_MAX;
        assert (k - 1) % WIRE_MAX == k - 1 - WIRE_MAX;
      }
    }
  }

  /** A window that ends without an ACK. */
  lemma TookAll(s: Link, source: bytes)
    requires Flowing(s, source) && (s.server.wrap || s.got < WIRE_MAX)
    requires (s.got + 1) * s.server.opts.blksize <= |source| && s.got + 1 == s.client.blockNum
    requires Wire(s.got + 1) < s.server.lastAcked + s.server.opts.windowsize
    ensures !Uploadable(source, s.server.opts.blksize, s.server.opts.windowsize, s.server.wrap)
  {
    var b, w, k := s.server.opts.blksize, s.server.opts.windowsize, s.got + 1;
    BlockCounts(|source|, b, k);
    WholeBlocks(|source|, b, k);
    AckAtWindowEnd(k, w, |s.acked|);
    if k == s.server.lastAcked + w {
      BlockNumberingAgrees(k);
      Overshoots(w, |s.acked|);
    }
  }

  lemma Overshoots(w: nat, acks: nat)
    requires 0 < w && acks * w <= WIRE_MAX < acks * w + w
    ensures BlockLimit(w, true) == acks * w + w
  {
    assert (acks + 1) * w == acks * w + w;
    WholeBlocks(WIRE_MAX, w, acks);
    WholeBlocks(WIRE_MAX, w, acks + 1);
  }

  /** Strict RFC 1350 mode: the server waits for number 65536, and the wire brings 1. */
  lemma BlockMistaken(s: Link, source: bytes)
    requires Flowing(s, source) && !s.server.wrap && s.got >= WIRE_MAX
    ensures Broken(ServerTurn(s), source) && Progress(s, ServerTurn(s), source)
  {
    var b := s.server.opts.blksize;
    var p := s.toServer[0];
    BlockNumberingAgrees(s.got + 1);
    assert p.Data? && p.block == Wire(s.got + 1) <= WIRE_MAX;
    MistakenReply(s.server, s.disk, p.block, p.data);
    assert [] + [Err(ILLEGAL_OPERATION, "DATA block number mismatch")] == [Err(ILLEGAL_OPERATION, "DATA block number mismatch")];
    MulMono(WIRE_MAX, s.got, b);
    WholeBlocks(|source|, b, WIRE_MAX);
  }

  lemma MistakenReply(t: Core, disk: bytes, block: nat, data: bytes)
    requires t.phase.Recv? && block != t.blockNum && block != t.blockNum - 1
    ensures var (h, disk') := HandleTransferData(t, disk, block, data);
            && h.packets == [Err(ILLEGAL_OPERATION, "DATA block number mismatch")] && !h.registered
            && h.t.opts == t.opts && h.t.wrap == t.wrap && h.t.bytesReceived == t.bytesReceived
            && disk' == disk + t.recvData
  {
  }

  lemma DataTurn(s: Link, source: bytes)
    requires Flowing(s, source)
    ensures Inv(ServerTurn(s), source) && Progress(s, ServerTurn(s), source)
  {
    if s.server.wrap || s.got < WIRE_MAX {
      BlockComes(s, source);
      var rest := Emission(source, s.server.opts.blksize, s.got + 1, s.client.blockNum - s.got - 1);
      if (s.got + 1) * s.server.opts.blksize > |source| {
        TookLast(s, source);
      } else {
        TookMiddle(s, source, rest);
      }
    } else {
      BlockMistaken(s, source);
    }
  }

  // ---- Every run -------------------------------------------------------------------------

  lemma TurnKeepsInv(s: Link, source: bytes, clientFirst: bool)
    requires Inv(s, source) && !AtRest(s)
    ensures Inv(Turn(s, source, clientFirst), source) && Progress(s, Turn(s, source, clientFirst), source)
  {
    if Starting(s, source) {
      StartTurn(s, source);
    } else if Flowing(s, source) {
      DataTurn(s, source);
    } else if Acking(s, source) {
      AckTurn(s, source);
    } else if s.toClient != [] && (clientFirst || s.toServer == []) {
      ErrorTurn(s, source);
    } else {
      LateTurn(s, source);
    }
  }

  lemma InvBounds(s: Link, source: bytes)
    requires Inv(s, source) && !AtRest(s)
    ensures 0 < s.server.opts.blksize && Measure(s, source) >= 0
  {
  }

  /** The run that the network's choices `picks` lead to, until nothing is under way. */
  ghost function Finish(s: Link, source: bytes, picks: nat -> bool, i: nat): Link
    requires Inv(s, source)
    decreases if AtRest(s) then 0 else Measure(s, source) + 1
  {
    if AtRest(s) then s
    else
      TurnKeepsInv(s, source, picks(i));
      InvBounds(s, source);
      assert !AtRest(Turn(s, source, picks(i))) ==> Measure(Turn(s, source, picks(i)), source) >= 0 by {
        if !AtRest(Turn(s, source, picks(i))) { InvBounds(Turn(s, source, picks(i)), source); }
      }
      Finish(Turn(s, source, picks(i)), source, picks, i + 1)
  }

  lemma {:induction false} FinishOutcome(s: Link, source: bytes, picks: nat -> bool, i: nat)
    requires Inv(s, source)
    ensures var e := Finish(s, source, picks, i);
            && AtRest(e) && Inv(e, source)
            && e.server.opts == s.server.opts && e.server.wrap == s.server.wrap
    decreases if AtRest(s) then 0 else Measure(s, source) + 1
  {
    if !AtRest(s) {
      TurnKeepsInv(s, source, picks(i));
      InvBounds(s, source);
      if !AtRest(Turn(s, source, picks(i))) {
        InvBounds(Turn(s, source, picks(i)), source);
      }
      FinishOutcome(Turn(s, source, picks(i)), source, picks, i + 1);
    }
  }

  lemma OpenInv(source: bytes, opts: Opts, wrap: bool, requested: Opts, withOptions: bool)
    requires Agreed(opts, requested, withOptions)
    ensures var s := Open(opts, wrap, requested, withOptions);
            Starting(s, source) && s.server.opts == opts && s.server.wrap == wrap
  {
  }

  /** On a lossless network every upload comes to rest, and it has then succeeded - the
      server's file equals the client's, both ends know it, and ACKs were sent exactly for the
      blocks at the multiples of the window size and for the last - exactly when the file does
      not end with a full block (an empty file does) and has no more blocks than the last
      window that begins by number 65535 can hold. */
  lemma UploadCompletesIff(
      source: bytes, opts: Opts, wrap: bool, requested: Opts, withOptions: bool, picks: nat -> bool)
    requires Agreed(opts, requested, withOptions)
    ensures Inv(Open(opts, wrap, requested, withOptions), source)
    ensures var e := Finish(Open(opts, wrap, requested, withOptions), source, picks, 0);
            && AtRest(e)
            && (Complete(e, source) <==> Uploadable(source, opts.blksize, opts.windowsize, wrap))
            && (!Complete(e, source) ==> LeftWaiting(e, source) || (Broken(e, source) && e.client.status.Rejected?))
  {
    OpenInv(source, opts, wrap, requested, withOptions);
    FinishOutcome(Open(opts, wrap, requested, withOptions), source, picks, 0);
    RestIsFinal(Finish(Open(opts, wrap, requested, withOptions), source, picks, 0), source);
  }

  lemma RestIsFinal(e: Link, source: bytes)
    requires Inv(e, source) && AtRest(e)
    ensures Complete(e, source) || LeftWaiting(e, source) || (Broken(e, source) && e.client.status.Rejected?)
    ensures 0 < e.server.opts.blksize && 0 < e.server.opts.windowsize
    ensures Complete(e, source) <==>
            Uploadable(source, e.server.opts.blksize, e.server.opts.windowsize, e.server.wrap)
  {
  }
}
