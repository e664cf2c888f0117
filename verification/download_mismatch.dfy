/** A download without an OACK over a network that delivers every packet once and in order:
    the server goes by the defaults, the client by the block and window size it asked for. */
module DownloadMismatch {
  import opened Bytes
  import opened Blocks
  import opened Options
  import opened Transfer
  import opened Emissions
  import opened TftpServer
  import opened TftpClient
  import opened Download
  import opened DownloadFifo

  /** The state after n turns, or the one in which nothing is under way any more. */
  function After(s: Link, file: bytes, picks: nat -> bool, i: nat, n: nat): Link
    decreases n
  {
    if n == 0 || AtRest(s) then s else After(Turn(s, file, picks(i)), file, picks, i + 1, n - 1)
  }

  /** What the two ends must have in common for a transfer to succeed: the last block is
      short for both, and if it is not the only one the client takes no longer blocks and
      acknowledges every one. */
  predicate Succeeds(size: nat, b: nat, wrap: bool, cb: nat, cw: nat)
    requires 0 < b
  {
    0 < size % b < cb && (size < b || (cb <= b && cw <= 1 && (wrap || size < WIRE_MAX * b)))
  }

  function ClientSize(s: Link): nat {
    BlockSize(OpenOnData(s.client).validated)
  }

  function ClientWindow(s: Link): nat {
    WindowSize(OpenOnData(s.client).validated)
  }

  // ---- One block under way -----------------------------------------------------------------

  /** The server sends one block at a time, and waits. */
  ghost predicate Waits(s: Link, file: bytes, k: nat) {
    var b := s.server.opts.blksize;
    && 0 < b && s.server.opts.windowsize == 1 && k * b < |file|
    && s.registered && SenderOk(s.server, file) && s.server.totalPackets == k + 1
    && s.server.errorCode == NOT_DEFINED
    && s.server.phase == (if (k + 1) * b > |file| then SendLast else Send)
  }

  ghost predicate Listens(s: Link, file: bytes, k: nat) {
    && s.client.status.Running? && OpenOnData(s.client).file == s.client.file
    && s.client.file == FirstBlocks(file, s.server.opts.blksize, k) && s.client.blockNum == Wire(k)
    && s.client.bytesReceived == |s.client.file| && s.client.packetsInWindow == 0
    && s.taken == s.dataAcks == k
    && (k > 0 ==> ClientSize(s) <= s.server.opts.blksize && ClientWindow(s) <= 1)
  }

  ghost predicate InFlight(s: Link, file: bytes, k: nat) {
    && Waits(s, file, k) && Listens(s, file, k) && s.toServer == []
    && s.toClient == [Data(Wire(k + 1), Block(file, s.server.opts.blksize, k + 1))]
  }

  /** The client has the block, and has acknowledged it if it is the last for it or fills
      its window. */
  ghost function Got(s: Link, file: bytes, k: nat): Link {
    var b := s.server.opts.blksize;
    var last := |Block(file, b, k + 1)| < ClientSize(s);
    var full := last || 1 >= ClientWindow(s);
    var c := OpenOnData(s.client).(file := FirstBlocks(file, b, k + 1),
                                   bytesReceived := |FirstBlocks(file, b, k + 1)|,
                                   blockNum := Wire(k + 1),
                                   packetsInWindow := if full then 0 else 1,
                                   status := if last then Resolved else Running);
    Link(s.server, s.registered, c, [], if full then [Ack(Wire(k + 1))] else [],
         k + 1, if full then k + 1 else k)
  }

  lemma BlockArrives(s: Link, file: bytes, k: nat, clientFirst: bool)
    requires InFlight(s, file, k)
    ensures Turn(s, file, clientFirst) == Got(s, file, k)
  {
    hide Wire, Block, GetData, SenderOk, FirstBlocks;
    var b := s.server.opts.blksize;
    GetsNext(s.client, file, b, k);
    ExtendBlocks(file, b, k);
    DownloadFifo.LastIsShort(file, b, k);
    assert [] + (if |Got(s, file, k).toServer| == 0 then [] else [Ack(Wire(k + 1))]) == Got(s, file, k).toServer;
  }

  /** After the last block the server is done as soon as it hears of it. */
  lemma LastAcked(s: Link, file: bytes, k: nat, clientFirst: bool)
    requires Waits(s, file, k) && s.server.phase.SendLast? && s.toClient == [] && s.toServer == [Ack(Wire(k + 1))]
    ensures var s' := Turn(s, file, clientFirst);
            AtRest(s') && s' == s.(server := s.server.(phase := Done), registered := false, toServer := [])
  {
    hide Wire, SenderOk;
  }

  /** An ACK in the middle releases the next block, or, at the end, nothing. */
  lemma MiddleAcked(s: Link, file: bytes, k: nat, clientFirst: bool)
    requires Waits(s, file, k) && s.server.phase.Send? && s.toClient == [] && s.toServer == [Ack(Wire(k + 1))]
    ensures var b, s' := s.server.opts.blksize, Turn(s, file, clientFirst);
            && s' == s.(server := s'.server, toClient := s'.toClient, toServer := [])
            && s'.server.opts == s.server.opts && s'.server.wrap == s.server.wrap
            && ((k + 1) * b == |file| ==> s'.toClient == [] && s'.server.phase.SendLast?)
            && ((k + 1) * b < |file| && (s.server.wrap || k + 1 < WIRE_MAX) ==>
                  Waits(s', file, k + 1) && s'.toClient == [Data(Wire(k + 2), Block(file, b, k + 2))])
            && ((k + 1) * b < |file| && !(s.server.wrap || k + 1 < WIRE_MAX) ==>
                  s'.toClient == [Err(NOT_DEFINED, OUT_OF_RANGE)])
  {
    hide Wire, SendLoop, Block, WindowOf;
    var t1 := HandleAck(s.server, Wire(k + 1)).0;
    assert t1 == s.server.(lastAcked := Wire(k + 1));
    WindowSent(t1, file, 0);
    SendLoopKeeps(t1, file, 0);
    var r := SendLoop(t1, file, 0);
    OneAtATime(t1, file, k + 1, r.0, r.1);
    assert [] + r.1 == r.1;
  }

  lemma OneAtATime(t: Core, file: bytes, m: nat, t': Core, ps: seq<Packet>)
    requires SenderOk(t, file) && t.phase.Send? && t.totalPackets == m && t.opts.windowsize == 1
    requires WindowOf(t, file, 0, t', ps)
    ensures var b := t.opts.blksize;
            && (m * b == |file| ==> ps == [] && t'.phase.SendLast?)
            && (m * b < |file| && (t.wrap || m < WIRE_MAX) ==>
                  && ps == [Data(Wire(m + 1), Block(file, b, m + 1))]
                  && SenderOk(t', file) && t'.totalPackets == m + 1
                  && t'.phase == (if (m + 1) * b > |file| then SendLast else Send))
            && (m * b < |file| && !(t.wrap || m < WIRE_MAX) ==> ps == [Err(NOT_DEFINED, OUT_OF_RANGE)])
  {
    hide Wire, Block, SenderOk;
    var b := t.opts.blksize;
    OffsetInside(t, file);
    BlockCounts(|file|, b, m);
    EmissionOne(file, b, m);
    WholeBlocks(|file|, b, m);
    assert Emission(file, b, WIRE_MAX, 0) == [];
  }

  lemma OffsetInside(t: Core, file: bytes)
    requires SenderOk(t, file) && t.phase.Send?
    ensures 0 < t.opts.blksize && t.totalPackets * t.opts.blksize <= |file| && (t.wrap || t.totalPackets <= WIRE_MAX)
  {
  }

  // ---- The end of it -----------------------------------------------------------------------

  /** Where a run ends, and that it says what it should. */
  ghost predicate Ends(e: Link, file: bytes, s: Link)
    requires 0 < s.server.opts.blksize
  {
    AtRest(e) &&
    (Complete(e, file) <==> Succeeds(|file|, s.server.opts.blksize, s.server.wrap, ClientSize(s), ClientWindow(s)))
  }

  lemma AfterOne(s: Link, file: bytes, picks: nat -> bool, i: nat, n: nat)
    requires !AtRest(s)
    ensures After(s, file, picks, i, n + 1) == After(Turn(s, file, picks(i)), file, picks, i + 1, n)
  {
  }

  lemma AfterRest(s: Link, file: bytes, picks: nat -> bool, i: nat, n: nat)
    requires AtRest(s)
    ensures After(s, file, picks, i, n) == s
  {
  }

  /** Where the block under way leaves the size of the file. */
  lemma SizeHere(file: bytes, b: nat, k: nat)
    requires 0 < b && k * b < |file|
    ensures (k + 1) * b > |file| ==> |file| % b == |Block(file, b, k + 1)| > 0 && k == |file| / b
                                     && |Block(file, b, k + 1)| < b
    ensures (k + 1) * b <= |file| ==> |Block(file, b, k + 1)| == b && |file| >= b
    ensures (k + 1) * b == |file| ==> |file| % b == 0
    ensures k == 0 && (k + 1) * b > |file| ==> |file| < b
    ensures k > 0 ==> |file| >= b
  {
    hide Block;
    assert (k + 1) * b == k * b + b;
    BlockSizeAt(file, b, k);
    if (k + 1) * b > |file| {
      LastBlock(|file|, b, k);
      assert |file| == k * b + |file| % b by { assert |file| == (|file| / b) * b + |file| % b; }
    } else {
      WholeBlocks(|file|, b, k + 1);
      MulMono(1, k + 1, b);
    }
    if k > 0 {
      MulMono(1, k, b);
    }
  }

  lemma BlockSizeAt(file: bytes, b: nat, k: nat)
    requires k * b < |file|
    ensures |Block(file, b, k + 1)| == Min(b, |file| - k * b)
  {
  }

  /** The last block, short for the server. */
  lemma EndsShort(s: Link, file: bytes, k: nat, picks: nat -> bool, i: nat) returns (n: nat)
    requires InFlight(s, file, k) && s.server.phase.SendLast?
    ensures Ends(After(s, file, picks, i, n), file, s)
  {
    hide Wire, Block, Turn;
    var b := s.server.opts.blksize;
    SizeHere(file, b, k);
    BlockArrives(s, file, k, picks(i));
    var s1 := Got(s, file, k);
    if s1.toServer == [] {
      n := 1;
      AfterOne(s, file, picks, i, 0);
    } else {
      LastAcked(s1, file, k, picks(i + 1));
      n := 2;
      AfterOne(s, file, picks, i, 1);
      AfterOne(s1, file, picks, i + 1, 0);
      if |file| < WIRE_MAX * b || s.server.wrap {
        EndShort(s, file, k, s1.(server := s1.server.(phase := Done), registered := false, toServer := []));
      } else {
        TooManyBlocks(s, file, k);
      }
    }
  }

  lemma TooManyBlocks(s: Link, file: bytes, k: nat)
    requires Waits(s, file, k) && s.server.phase.SendLast? && !s.server.wrap
    ensures |file| < WIRE_MAX * s.server.opts.blksize
  {
    hide Wire, Block;
    MulMono(k + 1, WIRE_MAX, s.server.opts.blksize);
  }

  lemma EndShort(s: Link, file: bytes, k: nat, e: Link)
    requires InFlight(s, file, k) && s.server.phase.SendLast? && Got(s, file, k).toServer != []
    requires s.server.wrap || |file| < WIRE_MAX * s.server.opts.blksize
    requires e == Got(s, file, k).(server := s.server.(phase := Done), registered := false, toServer := [])
    ensures Ends(e, file, s)
  {
    hide Wire, Block;
    var b := s.server.opts.blksize;
    SizeHere(file, b, k);
    assert FirstBlocks(file, b, k + 1) == file;
  }

  /** A full block that the client takes for the last, or does not acknowledge. */
  lemma EndsEarly(s: Link, file: bytes, k: nat, picks: nat -> bool, i: nat) returns (n: nat)
    requires InFlight(s, file, k) && s.server.phase.Send?
    requires ClientSize(s) > s.server.opts.blksize || ClientWindow(s) > 1
    ensures Ends(After(s, file, picks, i, n), file, s)
  {
    hide Wire, Block, Turn, SenderOk;
    var b := s.server.opts.blksize;
    SizeHere(file, b, k);
    BlockArrives(s, file, k, picks(i));
    var s1 := Got(s, file, k);
    if s1.toServer == [] {
      n := 1;
      AfterOne(s, file, picks, i, 0);
    } else {
      MiddleAcked(s1, file, k, picks(i + 1));
      var s2 := Turn(s1, file, picks(i + 1));
      AfterOne(s, file, picks, i, 2);
      AfterOne(s1, file, picks, i + 1, 1);
      n := 3;
      if s2.toClient == [] {
        AfterRest(s2, file, picks, i + 2, 1);
      } else {
        assert |s2.toClient| == 1;
        Ignored(s2, file, picks(i + 2));
        AfterOne(s2, file, picks, i + 2, 0);
      }
    }
  }

  lemma Ignored(s: Link, file: bytes, clientFirst: bool)
    requires !s.client.status.Running? && |s.toClient| == 1 && s.toServer == []
    ensures var s' := Turn(s, file, clientFirst);
            AtRest(s') && s'.client == s.client && s'.server == s.server && s'.registered == s.registered
  {
  }

  /** A full block, taken and acknowledged. */
  lemma {:induction false} Goes(s: Link, file: bytes, k: nat, picks: nat -> bool, i: nat) returns (n: nat)
    requires InFlight(s, file, k)
    ensures Ends(After(s, file, picks, i, n), file, s)
    decreases |file| - k * s.server.opts.blksize
  {
    hide Wire, Block, Turn, SenderOk;
    var b := s.server.opts.blksize;
    SizeHere(file, b, k);
    if s.server.phase.SendLast? {
      n := EndsShort(s, file, k, picks, i);
    } else if ClientSize(s) > b || ClientWindow(s) > 1 {
      n := EndsEarly(s, file, k, picks, i);
    } else {
      BlockArrives(s, file, k, picks(i));
      var s1 := Got(s, file, k);
      MiddleAcked(s1, file, k, picks(i + 1));
      var s2 := Turn(s1, file, picks(i + 1));
      if (k + 1) * b < |file| && (s.server.wrap || k + 1 < WIRE_MAX) {
        assert (k + 1) * b == k * b + b;
        var m := Goes(s2, file, k + 1, picks, i + 2);
        n := m + 2;
      } else if s2.toClient == [] {
        n := 2;
        AfterRest(s2, file, picks, i + 2, 0);
      } else {
        NoMoreNumbers(s, file, k);
        Rejects(s2, file, picks(i + 2));
        n := 3;
        AfterOne(s2, file, picks, i + 2, 0);
      }
      AfterOne(s, file, picks, i, n - 1);
      AfterOne(s1, file, picks, i + 1, n - 2);
    }
  }

  lemma NoMoreNumbers(s: Link, file: bytes, k: nat)
    requires Waits(s, file, k) && !s.server.wrap && k + 1 >= WIRE_MAX && (k + 1) * s.server.opts.blksize < |file|
    ensures WIRE_MAX * s.server.opts.blksize <= |file|
  {
    hide Wire, Block;
    MulMono(WIRE_MAX, k + 1, s.server.opts.blksize);
  }

  lemma Rejects(s: Link, file: bytes, clientFirst: bool)
    requires s.client.status.Running? && s.toClient == [Err(NOT_DEFINED, OUT_OF_RANGE)] && s.toServer == []
    ensures var s' := Turn(s, file, clientFirst); AtRest(s') && s'.client.status.Rejected?
  {
  }

  /** Without an OACK every schedule comes to rest, and the download has then succeeded
      exactly when the file ends with a block that is short for both ends and is the only
      one, or the client asked for blocks of at most 512 and no window. */
  lemma WithoutOackCompletesIff(file: bytes, wrap: bool, requested: Opts, picks: nat -> bool) returns (n: nat)
    ensures var e := After(Open(file, DEFAULT_OPTS, wrap, requested, false), file, picks, 0, n);
            && AtRest(e)
            && (Complete(e, file) <==>
                0 < |file| % 512 < requested.blksize
                && (|file| < 512
                    || (requested.blksize <= 512 && requested.windowsize <= 1 && (wrap || |file| < 65535 * 512))))
  {
    hide Wire, Block, Turn, SendLoop;
    var s := Open(file, DEFAULT_OPTS, wrap, requested, false);
    var t := AdvanceSend(InitRRQ(Fresh(true, wrap, DEFAULT_OPTS), false)).0;
    FreshIsOk(file, DEFAULT_OPTS, wrap, false);
    WindowSent(t, file, 0);
    SendLoopKeeps(t, file, 0);
    OneAtATime(t, file, 0, SendLoop(t, file, 0).0, SendLoop(t, file, 0).1);
    if file == [] {
      n := 0;
    } else {
      n := Goes(s, file, 0, picks, 0);
    }
  }
}
