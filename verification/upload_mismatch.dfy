/** An upload without an OACK over a network that delivers every packet once and in order:
    the server goes by the defaults, the client by the block and window size it asked for. */
module UploadMismatch {
  import opened Bytes
  import opened Blocks
  import opened Options
  import opened Transfer
  import opened Emissions
  import opened TftpClient
  import opened UploadFifo

  /** The state after n turns, or the one in which nothing is under way any more. */
  function After(s: Link, source: bytes, picks: nat -> bool, i: nat, n: nat): Link
    decreases n
  {
    if n == 0 || AtRest(s) then s else After(Turn(s, source, picks(i)), source, picks, i + 1, n - 1)
  }

  /** What the two ends must have in common: one short block, whatever its size; or blocks of
      one size, a short last one, and few enough.  Each ACK releases a window, and no number
      above 65535 is acknowledged but the last. */
  predicate Succeeds(size: nat, b: nat, wrap: bool, cb: nat, cw: nat)
    requires 0 < b
  {
    && 0 < size && 0 < cw
    && if size < b then size <= cb
       else cb == b && size % b != 0 && size / b < if wrap then (WIRE_MAX + 1) * cw else WIRE_MAX
  }

  /** ACKs have been sent for the blocks up to number 65535, one by one, and for the last. */
  predicate AckedFirst(acked: seq<nat>, got: nat) {
    && |acked| == Min(got, WIRE_MAX + 1)
    && forall j :: 0 <= j < |acked| ==> acked[j] == if j < WIRE_MAX then j + 1 else got
  }

  /** The file has been delivered, and both ends know it. */
  ghost predicate Delivered(s: Link, source: bytes) {
    && s.client.status.Resolved? && s.client.bytesSent == |source|
    && s.server.phase.Done? && !s.registered && s.server.errorCode == NOT_DEFINED
    && s.disk == source && s.server.bytesReceived == |source|
    && AckedFirst(s.acked, s.got)
  }

  // ---- Every run ends ----------------------------------------------------------------------

  function Measure(s: Link, source: bytes): int {
    2 * (|source| - s.client.offset) + 2 * |s.toServer| + |s.toClient|
  }

  lemma {:induction false} WindowInside(c: Putter, source: bytes, i: nat)
    requires c.offset <= |source|
    ensures var (c', ps) := PutWindow(c, source, i); c'.offset <= |source| && |ps| <= c'.offset - c.offset
    decreases WindowSize(c.validated) - i
  {
    var chunk := ReadAt(source, c.offset, BlockSize(c.validated));
    if i < WindowSize(c.validated) && chunk != [] {
      var c1 := PutOne(c, chunk).0;
      if |chunk| >= BlockSize(c.validated) {
        WindowInside(c1, source, i + 1);
      }
    }
  }

  lemma MessageInside(c: Putter, source: bytes, p: Packet)
    requires c.offset <= |source|
    ensures var (c', ps) := PutMessage(c, source, p); c'.offset <= |source| && |ps| <= c'.offset - c.offset
  {
    hide PutWindow, ValidateOptions;
    forall c1: Putter | c1.offset == c.offset
      ensures var (c', ps) := PutWindow(c1, source, 0); c'.offset <= |source| && |ps| <= c'.offset - c1.offset
    {
      WindowInside(c1, source, 0);
    }
  }

  lemma TurnShrinks(s: Link, source: bytes, clientFirst: bool)
    requires !AtRest(s) && s.client.offset <= |source|
    ensures var s' := Turn(s, source, clientFirst); s'.client.offset <= |source| && Measure(s', source) < Measure(s, source)
  {
    hide PutMessage;
    if s.toClient != [] {
      MessageInside(s.client, source, s.toClient[0]);
    }
  }

  // ---- The invariant, phase by phase -------------------------------------------------------

  ghost predicate ServerIs(s: Link, wrap: bool) {
    s.server.opts.windowsize == 1 && 0 < s.server.opts.blksize && s.server.wrap == wrap
  }

  ghost predicate ClientIs(s: Link, source: bytes, cb: nat, cw: nat) {
    && s.client.isOpen && s.client.validated.Some?
    && BlockSize(s.client.validated) == cb && WindowSize(s.client.validated) == cw
    && 0 < cb && PutterOk(s.client, source) && !s.client.status.Rejected?
  }

  ghost predicate OnlyAcks(ps: seq<Packet>) {
    forall i :: 0 <= i < |ps| ==> ps[i].Ack?
  }

  /** Both go by the same blocks: everything sent is on its way in order, and every ACK that
      has arrived has released a window. */
  ghost predicate Streaming(s: Link, source: bytes, wrap: bool, cw: nat) {
    var b := s.server.opts.blksize;
    && 0 < b
    && var n := BlockCount(|source|, b);
    && ServerIs(s, wrap) && ClientIs(s, source, b, cw) && Waiting(s, source) && (wrap || s.got <= WIRE_MAX)
    && |s.acked| == Min(s.got, WIRE_MAX)
    && s.got <= s.client.blockNum && s.toServer == Emission(source, b, s.got, s.client.blockNum - s.got)
    && OnlyAcks(s.toClient) && |s.toClient| <= |s.acked|
    && s.client.blockNum <= (WIRE_MAX + 1) * cw
    && (s.client.status.Running? ==> s.client.blockNum == Min(cw * (1 + |s.acked| - |s.toClient|), n))
    && (s.client.status.Resolved? ==> s.client.blockNum == n)
  }

  /** The short last block has come. */
  ghost predicate Finished(s: Link, source: bytes) {
    && s.server.phase.Done? && !s.registered && s.server.errorCode == NOT_DEFINED
    && s.disk == source && s.server.bytesReceived == |source| && AckedFirst(s.acked, s.got)
    && s.toServer == [] && OnlyAcks(s.toClient)
    && s.client.isOpen && s.client.offset == s.client.bytesSent == |source|
    && (s.client.status.Resolved? || (s.client.status.Running? && s.toClient != []))
  }

  /** The first of blocks that are not the server's. */
  ghost predicate FirstSent(s: Link, source: bytes, wrap: bool, cb: nat) {
    && ServerIs(s, wrap) && 0 < cb && cb != s.server.opts.blksize && Waiting(s, source) && s.got == 0 && s.acked == []
    && s.toClient == [] && s.toServer != [] && s.toServer[0] == Data(1, source[..Min(cb, |source|)])
    && source != [] && s.client.isOpen && s.client.status.Running? && s.client.offset == s.client.bytesSent <= |source|
    && (|source| <= cb ==> |s.toServer| == 1 && s.client.offset == |source|)
  }

  /** The server has not all of the file, and will not get more. */
  ghost predicate Failed(s: Link, source: bytes) {
    || (!s.registered && (s.disk != source || s.server.errorCode != NOT_DEFINED))
    || (&& s.registered && s.toServer == [] && OnlyAcks(s.toClient)
        && (s.toClient == [] || (s.client.isOpen && s.client.offset >= |source|)))
  }

  ghost predicate Inv(s: Link, source: bytes, wrap: bool, cb: nat, cw: nat) {
    && 0 < s.server.opts.blksize && s.client.offset <= |source|
    && var ok := Succeeds(|source|, s.server.opts.blksize, wrap, cb, cw);
       || (cb == s.server.opts.blksize && Streaming(s, source, wrap, cw))
       || (ok && Finished(s, source))
       || (0 < cw && FirstSent(s, source, wrap, cb))
       || (!ok && Failed(s, source))
  }

  // ---- The client's turn -------------------------------------------------------------------

  lemma StreamingAck(s: Link, source: bytes, wrap: bool, cw: nat)
    requires Streaming(s, source, wrap, cw) && s.toClient != []
    ensures Streaming(ClientTurn(s, source), source, wrap, cw)
  {
    hide Emission, BlockCount, Waiting, PutWindow;
    var b, c := s.server.opts.blksize, s.client;
    var n := BlockCount(|source|, b);
    var s' := ClientTurn(s, source);
    SameServerWaits(s, s', source);
    BlockCounts(|source|, b, c.blockNum);
    if c.status.Running? && c.offset < |source| {
      PutWindowSent(c, source, 0);
      var count := PutLeft(c, source, 0);
      EmissionAppend(source, b, s.got, c.blockNum - s.got, count);
      assert cw * (1 + |s.acked| - |s.toClient| + 1) == cw * (1 + |s.acked| - |s.toClient|) + cw;
      MulMono(1 + |s.acked| - |s'.toClient|, WIRE_MAX + 1, cw);
    } else {
      assert s.toServer + [] == s.toServer;
    }
  }

  lemma SameServerWaits(s: Link, s': Link, source: bytes)
    requires Waiting(s, source)
    requires s'.server == s.server && s'.registered == s.registered
    requires s'.disk == s.disk && s'.got == s.got && s'.acked == s.acked
    ensures Waiting(s', source)
  {
  }

  lemma FinishedAck(s: Link, source: bytes)
    requires Finished(s, source) && s.toClient != []
    ensures Finished(ClientTurn(s, source), source)
  {
    hide AckedFirst;
    assert s.toServer + [] == s.toServer;
  }

  lemma FailedClient(s: Link, source: bytes)
    requires Failed(s, source) && s.toClient != []
    ensures Failed(ClientTurn(s, source), source)
  {
    hide SendNextWindow;
    assert s.toServer + [] == s.toServer;
  }

  // ---- The server's turn -------------------------------------------------------------------

  /** What the block that the server waits for does to it. */
  lemma NextAccepted(s: Link, source: bytes, rest: seq<Packet>)
    requires Waiting(s, source) && (s.server.wrap || s.got < WIRE_MAX) && s.got * s.server.opts.blksize < |source|
    requires s.toServer == [Data(Wire(s.got + 1), Block(source, s.server.opts.blksize, s.got + 1))] + rest
    ensures var t := Took(s, source, rest);
            ServerTurn(s) == t.(toClient := s.toClient + t.toClient)
  {
    BlockAccepted(s, source);
    assert s.toServer[1..] == rest;
  }

  /** Of the blocks that are full, it acknowledges those up to number 65535. */
  lemma FullTaken(s: Link, source: bytes, rest: seq<Packet>)
    requires Waiting(s, source) && s.server.opts.windowsize == 1 && (s.server.wrap || s.got < WIRE_MAX)
    requires (s.got + 1) * s.server.opts.blksize <= |source| && |s.acked| == Min(s.got, WIRE_MAX)
    ensures var t := Took(s, source, rest);
            && Waiting(t, source) && |t.acked| == Min(t.got, WIRE_MAX)
            && t.toClient == (if s.got < WIRE_MAX then [Ack(Wire(s.got + 1))] else [])
  {
    hide Wire, Awaited, Block, FirstBlocks;
    var b, k := s.server.opts.blksize, s.got + 1;
    ExtendBlocks(source, b, s.got);
    WholeBlock(source, b, k);
    BlockNumberingAgrees(k);
    BlockNumberingAgrees(s.got);
  }

  /** The short last block ends the transfer. */
  lemma LastTaken(s: Link, source: bytes, rest: seq<Packet>)
    requires Waiting(s, source) && s.server.opts.windowsize == 1 && (s.server.wrap || s.got < WIRE_MAX)
    requires s.got * s.server.opts.blksize < |source| < (s.got + 1) * s.server.opts.blksize
    requires |s.acked| == Min(s.got, WIRE_MAX)
    ensures var t := Took(s, source, rest);
            && t.server.phase.Done? && !t.registered && t.server.errorCode == NOT_DEFINED
            && t.disk == source && t.server.bytesReceived == |source| && AckedFirst(t.acked, t.got)
            && t.toClient == [Ack(Wire(s.got + 1))]
  {
    hide Wire, Block, FirstBlocks;
    var b := s.server.opts.blksize;
    ExtendBlocks(source, b, s.got);
    ShortBlock(source, b, s.got);
    AllBlocks(source, b, s.got + 1);
  }

  lemma AllBlocks(source: bytes, b: nat, k: nat)
    requires |source| <= k * b
    ensures FirstBlocks(source, b, k) == source
  {
  }

  lemma StreamingData(s: Link, source: bytes, wrap: bool, cw: nat)
    requires Streaming(s, source, wrap, cw) && s.toServer != []
    ensures Inv(ServerTurn(s), source, wrap, s.server.opts.blksize, cw)
  {
    hide Wire, Block, Took, BlockCount;
    var b, left := s.server.opts.blksize, s.client.blockNum - s.got;
    EmissionCons(source, b, s.got, left - 1);
    BlockCounts(|source|, b, s.got);
    if wrap || s.got < WIRE_MAX {
      NextAccepted(s, source, Emission(source, b, s.got + 1, left - 1));
      if (s.got + 1) * b <= |source| {
        StreamingFull(s, source, wrap, cw);
      } else {
        StreamingLast(s, source, wrap, cw);
      }
    } else {
      NumbersEnd(s, source, wrap, cw);
    }
  }

  lemma StreamingFull(s: Link, source: bytes, wrap: bool, cw: nat)
    requires Streaming(s, source, wrap, cw) && s.got < s.client.blockNum && (wrap || s.got < WIRE_MAX)
    requires (s.got + 1) * s.server.opts.blksize <= |source|
    requires var t := Took(s, source, Emission(source, s.server.opts.blksize, s.got + 1, s.client.blockNum - s.got - 1));
             ServerTurn(s) == t.(toClient := s.toClient + t.toClient)
    ensures Streaming(ServerTurn(s), source, wrap, cw)
  {
    hide Wire, Block, BlockCount, Emission, FirstBlocks, ServerTurn;
    var rest := Emission(source, s.server.opts.blksize, s.got + 1, s.client.blockNum - s.got - 1);
    FullTaken(s, source, rest);
    var t := Took(s, source, rest);
    SameServerWaits(t, t.(toClient := s.toClient + t.toClient), source);
  }

  lemma StreamingLast(s: Link, source: bytes, wrap: bool, cw: nat)
    requires Streaming(s, source, wrap, cw) && s.got < s.client.blockNum && (wrap || s.got < WIRE_MAX)
    requires s.got * s.server.opts.blksize < |source| < (s.got + 1) * s.server.opts.blksize
    requires var t := Took(s, source, Emission(source, s.server.opts.blksize, s.got + 1, s.client.blockNum - s.got - 1));
             ServerTurn(s) == t.(toClient := s.toClient + t.toClient)
    ensures Finished(ServerTurn(s), source)
    ensures Succeeds(|source|, s.server.opts.blksize, wrap, s.server.opts.blksize, cw)
  {
    hide Wire, Block, FirstBlocks, ServerTurn, AckedFirst;
    var b := s.server.opts.blksize;
    LastTaken(s, source, Emission(source, b, s.got + 1, s.client.blockNum - s.got - 1));
    LastBlock(|source|, b, s.got);
    NothingBehind(source, b, s.got + 1);
    assert s.client.blockNum == s.got + 1;
  }

  lemma NumbersEnd(s: Link, source: bytes, wrap: bool, cw: nat)
    requires Streaming(s, source, wrap, cw) && !wrap && s.got == WIRE_MAX && s.toServer != []
    requires s.toServer[0] == Data(Wire(s.got + 1), Block(source, s.server.opts.blksize, s.got + 1))
    requires s.got * s.server.opts.blksize < |source|
    ensures Failed(ServerTurn(s), source) && !Succeeds(|source|, s.server.opts.blksize, wrap, s.server.opts.blksize, cw)
    ensures ServerTurn(s).server.opts == s.server.opts
  {
    hide Block, Emission, BlockCount;
    BlockNumberingAgrees(s.got + 1);
    WholeBlocks(|source|, s.server.opts.blksize, WIRE_MAX);
    assert Wire(WIRE_MAX + 1) == 1;
  }

  lemma FailedServer(s: Link, source: bytes)
    requires Failed(s, source) && s.toServer != []
    ensures Failed(ServerTurn(s), source)
  {
  }

  /** A block of another size: it is refused, taken for the last, or all there is. */
  lemma FirstArrives(s: Link, source: bytes, wrap: bool, cb: nat, cw: nat)
    requires FirstSent(s, source, wrap, cb) && 0 < cw
    ensures Inv(ServerTurn(s), source, wrap, cb, cw)
  {
    var b := s.server.opts.blksize;
    var data := source[..Min(cb, |source|)];
    if |data| > b {
      assert Failed(ServerTurn(s), source);
    } else if |data| < b {
      assert s.disk + data == data;
      if |source| <= cb {
        assert data == source;
        assert s.toServer[1..] == [];
        assert Finished(ServerTurn(s), source);
      } else {
        assert Failed(ServerTurn(s), source);
      }
    } else {
      assert |source| == b && s.toServer[1..] == [];
      assert Failed(ServerTurn(s), source);
    }
  }

  // ---- Every run ---------------------------------------------------------------------------

  lemma TurnKeepsInv(s: Link, source: bytes, wrap: bool, cb: nat, cw: nat, clientFirst: bool)
    requires Inv(s, source, wrap, cb, cw) && !AtRest(s)
    ensures Inv(Turn(s, source, clientFirst), source, wrap, cb, cw)
    ensures Turn(s, source, clientFirst).server.opts == s.server.opts
  {
    hide Streaming, Finished, FirstSent, Failed, Succeeds, ClientTurn, ServerTurn;
    TurnShrinks(s, source, clientFirst);
    TurnKeepsOpts(s, source, clientFirst);
    if s.toClient != [] && (clientFirst || s.toServer == []) {
      ClientKeepsInv(s, source, wrap, cb, cw);
    } else {
      ServerKeepsInv(s, source, wrap, cb, cw);
    }
  }

  lemma TurnKeepsOpts(s: Link, source: bytes, clientFirst: bool)
    requires !AtRest(s)
    ensures Turn(s, source, clientFirst).server.opts == s.server.opts
  {
    hide PutMessage;
  }

  lemma ClientKeepsInv(s: Link, source: bytes, wrap: bool, cb: nat, cw: nat)
    requires Inv(s, source, wrap, cb, cw) && s.toClient != []
    requires ClientTurn(s, source).client.offset <= |source|
    ensures Inv(ClientTurn(s, source), source, wrap, cb, cw)
  {
    hide Streaming, Finished, Failed, Succeeds, PutMessage;
    if cb == s.server.opts.blksize && Streaming(s, source, wrap, cw) {
      StreamingAck(s, source, wrap, cw);
    } else if Finished(s, source) {
      FinishedAck(s, source);
      if Failed(s, source) { FailedClient(s, source); }
    } else if Failed(s, source) {
      FailedClient(s, source);
    }
  }

  lemma ServerKeepsInv(s: Link, source: bytes, wrap: bool, cb: nat, cw: nat)
    requires Inv(s, source, wrap, cb, cw) && s.toServer != []
    ensures Inv(ServerTurn(s), source, wrap, cb, cw)
  {
    hide Streaming, FirstSent, Failed, Succeeds, ServerTurn;
    if cb == s.server.opts.blksize && Streaming(s, source, wrap, cw) {
      StreamingData(s, source, wrap, cw);
    } else if 0 < cw && FirstSent(s, source, wrap, cb) {
      FirstArrives(s, source, wrap, cb, cw);
    } else if Failed(s, source) {
      FailedServer(s, source);
      ServerKeepsClient(s);
    }
  }

  lemma ServerKeepsClient(s: Link)
    requires s.toServer != []
    ensures ServerTurn(s).client == s.client && ServerTurn(s).server.opts == s.server.opts
  {
  }

  /** Nothing more can come, and it is decided. */
  lemma RestDecides(s: Link, source: bytes, wrap: bool, cb: nat, cw: nat)
    requires Inv(s, source, wrap, cb, cw) && AtRest(s)
    ensures Delivered(s, source) <==> Succeeds(|source|, s.server.opts.blksize, wrap, cb, cw)
  {
    hide AckedFirst, Emission, BlockCount;
    if cb == s.server.opts.blksize && Streaming(s, source, wrap, cw) {
      StreamingStops(s, source, wrap, cw);
    }
  }

  /** The windows have run dry: the file ends with a full block, or has more of them than the
      ACKs could release. */
  lemma StreamingStops(s: Link, source: bytes, wrap: bool, cw: nat)
    requires Streaming(s, source, wrap, cw) && AtRest(s)
    ensures s.registered && !Succeeds(|source|, s.server.opts.blksize, wrap, s.server.opts.blksize, cw)
  {
    hide Wire, FirstBlocks;
    var b, n := s.server.opts.blksize, BlockCount(|source|, s.server.opts.blksize);
    EmissionLength(source, b, s.got, s.client.blockNum - s.got);
    assert s.got == s.client.blockNum;
    BlockCounts(|source|, b, s.got);
    WholeBlocks(|source|, b, s.got);
    if s.got < n && 0 < cw {
      assert s.got == cw * (1 + |s.acked|);
      MulMono(1, cw, 1 + |s.acked|);
      assert s.got > WIRE_MAX;
      assert s.got == (WIRE_MAX + 1) * cw;
    }
  }

  lemma EmissionLength(file: bytes, b: nat, made: nat, count: nat)
    ensures |Emission(file, b, made, count)| == count
  {
  }

  lemma {:induction false} ComesToRest(
      s: Link, source: bytes, wrap: bool, cb: nat, cw: nat, picks: nat -> bool, i: nat) returns (n: nat)
    requires Inv(s, source, wrap, cb, cw)
    ensures var e := After(s, source, picks, i, n);
            AtRest(e) && (Delivered(e, source) <==> Succeeds(|source|, s.server.opts.blksize, wrap, cb, cw))
    decreases Measure(s, source)
  {
    hide Inv, Turn, Delivered, Succeeds, Measure;
    InvInside(s, source, wrap, cb, cw);
    if AtRest(s) {
      n := 0;
      RestDecides(s, source, wrap, cb, cw);
    } else {
      TurnShrinks(s, source, picks(i));
      TurnKeepsInv(s, source, wrap, cb, cw, picks(i));
      var m := ComesToRest(Turn(s, source, picks(i)), source, wrap, cb, cw, picks, i + 1);
      n := m + 1;
    }
  }

  lemma InvInside(s: Link, source: bytes, wrap: bool, cb: nat, cw: nat)
    requires Inv(s, source, wrap, cb, cw)
    ensures s.client.offset <= |source| && Measure(s, source) >= 0 && 0 < s.server.opts.blksize
  {
    hide Streaming, Finished, FirstSent, Failed, Succeeds;
  }

  // ---- The beginning -----------------------------------------------------------------------

  /** The client's answer to ACK(0): nothing, or its first window. */
  lemma Opens(source: bytes, wrap: bool, requested: Opts, clientFirst: bool)
    ensures var s := Open(DEFAULT_OPTS, wrap, requested, false);
            Inv(Turn(s, source, clientFirst), source, wrap, requested.blksize, requested.windowsize)
    ensures Turn(Open(DEFAULT_OPTS, wrap, requested, false), source, clientFirst).server.opts == DEFAULT_OPTS
  {
    hide PutWindow, Emission, BlockCount, Succeeds;
    var s := Open(DEFAULT_OPTS, wrap, requested, false);
    var cb, cw := requested.blksize, requested.windowsize;
    var c := NewPutter(requested).(validated := Some(WithoutOack(requested)), isOpen := true);
    var s' := Turn(s, source, clientFirst);
    var w := PutWindow(c, source, 0);
    assert [] + w.1 == w.1;
    assert FirstBlocks(source, 512, 0) == [];
    assert Waiting(s, source);
    if source == [] {
      assert Failed(s', source) && !Succeeds(|source|, 512, wrap, cb, cw) by { NeedsBoth(wrap, cb, cw); }
    } else {
      assert s' == s.(client := w.0, toServer := w.1, toClient := []);
      if cw == 0 || cb == 0 {
        NothingSent(c, source);
        Unsuited(|source|, wrap, cb, cw);
        assert Failed(s', source);
      } else if cb == 512 {
        StreamBegins(source, wrap, cw, s, s', c);
      } else {
        FirstOfWindow(c, source);
        assert FirstSent(s', source, wrap, cb);
      }
    }
  }

  lemma NeedsBoth(wrap: bool, cb: nat, cw: nat)
    ensures !Succeeds(0, 512, wrap, cb, cw)
  {
  }

  lemma Unsuited(size: nat, wrap: bool, cb: nat, cw: nat)
    requires cw == 0 || cb == 0
    ensures !Succeeds(size, 512, wrap, cb, cw)
  {
  }

  lemma NothingSent(c: Putter, source: bytes)
    requires WindowSize(c.validated) == 0 || BlockSize(c.validated) == 0
    ensures PutWindow(c, source, 0) == (c, [])
  {
    assert ReadAt(source, c.offset, 0) == [];
  }

  lemma StreamBegins(source: bytes, wrap: bool, cw: nat, s: Link, s': Link, c: Putter)
    requires s.server.opts == DEFAULT_OPTS && Waiting(s, source) && s.got == 0 && s.acked == [] && s.server.wrap == wrap
    requires PutterOk(c, source) && c.blockNum == 0 && c.status.Running? && c.isOpen && c.validated.Some?
    requires BlockSize(c.validated) == 512 && WindowSize(c.validated) == cw
    requires s' == s.(client := PutWindow(c, source, 0).0, toServer := PutWindow(c, source, 0).1, toClient := [])
    ensures Streaming(s', source, wrap, cw)
  {
    hide PutWindow, Emission, BlockCount;
    PutWindowSent(c, source, 0);
    SameServerWaits(s, s', source);
  }

  lemma FirstOfWindow(c: Putter, source: bytes)
    requires c.blockNum == c.offset == c.bytesSent == 0 && source != []
    requires 0 < WindowSize(c.validated) && 0 < BlockSize(c.validated)
    ensures var (c', ps) := PutWindow(c, source, 0);
            var cb := BlockSize(c.validated);
            && ps != [] && ps[0] == Data(1, source[..Min(cb, |source|)])
            && c'.status == c.status && c'.isOpen == c.isOpen && c'.offset == c'.bytesSent <= |source|
            && (|source| <= cb ==> |ps| == 1 && c'.offset == |source|)
  {
    hide Emission, Wire;
    var cb := BlockSize(c.validated);
    assert PutterOk(c, source) by { BlockCounts(|source|, cb, 0); }
    PutWindowSent(c, source, 0);
    var count := PutLeft(c, source, 0);
    BlockCounts(|source|, cb, 0);
    BlockCounts(|source|, cb, 1);
    BlockNumberingAgrees(1);
    EmissionCons(source, cb, 0, count - 1);
    EmissionLength(source, cb, 0, count);
    assert Block(source, cb, 1) == source[..Min(cb, |source|)];
  }

  /** Without an OACK every schedule comes to rest, and the upload has then succeeded exactly
      when the file is one block, short for the server and not longer than the client's, or the
      client asked for blocks of 512, the last one is short, and the 65536 windows that ACKs can
      release - in strict RFC 1350 mode the block numbers - hold the file. */
  lemma WithoutOackUploadsIff(source: bytes, wrap: bool, requested: Opts, picks: nat -> bool) returns (n: nat)
    ensures var e := After(Open(DEFAULT_OPTS, wrap, requested, false), source, picks, 0, n);
            && AtRest(e)
            && (Delivered(e, source) <==>
                && 0 < |source| && 0 < requested.windowsize
                && (if |source| < 512 then |source| <= requested.blksize
                    else requested.blksize == 512 && |source| % 512 != 0
                         && |source| / 512 < if wrap then 65536 * requested.windowsize else 65535))
  {
    hide Turn, Inv;
    var s := Open(DEFAULT_OPTS, wrap, requested, false);
    Opens(source, wrap, requested, picks(0));
    var m := ComesToRest(
      Turn(s, source, picks(0)), source, wrap, requested.blksize, requested.windowsize, picks, 1);
    n := m + 1;
  }
}
