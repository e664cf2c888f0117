/** A download over a network that loses, repeats and reorders packets.

    The server (src/tftp/server.mts) and the client's `get` (src/tftp/client.mts) with
    everything they have sent so far between them: any of it may arrive, at any time, any
    number of times, or never.  A retransmission timer only sends again what is already
    there.  One transfer; every handler is one atomic step. */
module Download {
  import opened Bytes
  import opened Blocks
  import opened Options
  import opened Transfer
  import opened TftpServer
  import opened TftpClient

  /** `log` is every DATA and ERROR the server has sent, `acks` every number the client has
      acknowledged, `oacks` how many copies of the OACK may still arrive.  `taken` counts
      the blocks the client has written and `lost` those of them that were cut off again
      when a later OACK truncated the file; no code reads them. */
  datatype Net = Net(
    server: Core,
    registered: bool,
    client: Getter,
    log: seq<Packet>,
    acks: set<nat>,
    oacks: nat,
    taken: nat,
    lost: nat)

  datatype Event =
    | DeliverOack
    | DeliverToClient(i: nat)
    | DeliverAck(n: nat)
    | ClientGivesUp
    | ServerCollects

  /** The request has been handled: with options the server has sent its OACK, without them
      the first window of DATA. */
  function Start(file: bytes, opts: Opts, wrap: bool, requested: Opts, withOptions: bool, copies: nat): Net {
    var t := AdvanceSend(InitRRQ(Fresh(true, wrap, opts), withOptions)).0;
    if withOptions then Net(t, true, NewGetter(requested), [], {}, copies, 0, 0)
    else
      var (t', ps) := SendLoop(t, file, 0);
      Net(t', true, NewGetter(requested), ps, {}, 0, 0, 0)
  }

  function Acked(replies: seq<Packet>): set<nat> {
    set p | p in replies && p.Ack? :: p.block
  }

  function ToClient(s: Net, p: Packet): Net {
    var (c, replies) := GetMessage(s.client, p);
    s.(client := c,
       acks := s.acks + Acked(replies),
       taken := if |c.file| > |s.client.file| then s.taken + 1 else s.taken,
       lost := if |c.file| < |s.client.file| then s.taken else s.lost)
  }

  function Step(s: Net, file: bytes, e: Event): Net {
    match e
    case DeliverOack =>
      if s.oacks == 0 then s else ToClient(s, Oack(ValidatedToRaw(s.server.opts))).(oacks := s.oacks - 1)
    case DeliverToClient(i) =>
      if i < |s.log| then ToClient(s, s.log[i]) else s
    case DeliverAck(n) =>
      if n !in s.acks then s
      else if !s.registered then s.(log := s.log + [NO_ACTIVE_TRANSFER])
      else
        var h := HandleTransferAck(s.server, file, n);
        s.(server := h.t, registered := h.registered, log := s.log + h.packets)
    case ClientGivesUp =>
      if s.client.status.Running? then s.(client := s.client.(status := Rejected)) else s
    case ServerCollects => s.(registered := false)
  }

  function Run(s: Net, file: bytes, es: seq<Event>): Net
    decreases |es|
  {
    if es == [] then s else Run(Step(s, file, es[0]), file, es[1..])
  }

  /** What the client has written is the beginning of the server's file, and all of it
      once `get` has resolved. */
  predicate Safe(s: Net, file: bytes) {
    && s.client.file <= file
    && (s.client.status.Resolved? ==> s.client.file == file)
  }

  /** A DATA packet that arrives while the client listens is less than 65535 blocks away
      from the one it waits for. */
  predicate Near(s: Net, e: Event) {
    e.DeliverToClient? && e.i < |s.log| && s.log[e.i].Data? && s.client.status.Running?
    ==> e.i < s.taken + WIRE_MAX && s.taken < e.i + WIRE_MAX
  }

  predicate AllNear(s: Net, file: bytes, es: seq<Event>)
    decreases |es|
  {
    es == [] || (Near(s, es[0]) && AllNear(Step(s, file, es[0]), file, es[1..]))
  }

  // ---- The invariant -------------------------------------------------------------------

  /** Entry i of the log is the (i+1)-th block of the file, or an ERROR. */
  ghost predicate LogOk(log: seq<Packet>, file: bytes, b: nat) {
    forall i :: 0 <= i < |log| ==>
      log[i].Err? || (log[i] == Data(Wire(i + 1), Block(file, b, i + 1)) && i * b < |file|)
  }

  ghost predicate ServerSide(s: Net, file: bytes) {
    && 0 < s.server.opts.blksize && 0 < s.server.opts.windowsize
    && LogOk(s.log, file, s.server.opts.blksize)
    && (s.server.phase.Send? || s.server.phase.SendLast? || s.server.phase.Done?)
    && (s.registered && !s.server.phase.Done? ==> SenderOk(s.server, file) && |s.log| == s.server.totalPackets)
  }

  /** The client goes by blocks of `cb`, which need not be the server's size: it takes the
      first block shorter than that for the last. */
  ghost predicate ClientSide(s: Net, file: bytes, cb: nat) {
    var b := s.server.opts.blksize;
    && 0 < b && s.lost <= s.taken <= BlockCount(|file|, b)
    && s.client.file == Kept(file, b, s.lost, s.taken) && s.client.blockNum == Wire(s.taken)
    && (s.client.status.Running? && s.taken > 0 ==> |Block(file, b, s.taken)| >= cb)
    && (s.client.status.Resolved? ==> s.lost < s.taken && |Block(file, b, s.taken)| < cb)
    && (s.lost > 0 ==> |Block(file, b, s.lost)| >= cb)
  }

  /** Where the client's block size comes from. */
  ghost predicate Opening(s: Net, cb: nat) {
    && (s.client.isOpen ==> s.client.validated.Some? && s.client.validated.value.blksize == cb)
    && (!s.client.isOpen ==> s.taken == 0 && (s.client.requested.blksize == cb || (s.log == [] && s.acks == {})))
    && (s.oacks > 0 ==> Acceptable(s.server.opts) && s.server.opts.blksize == cb)
  }

  ghost predicate Inv(s: Net, file: bytes, cb: nat) {
    ServerSide(s, file) && ClientSide(s, file, cb) && Opening(s, cb)
  }

  /** What a window adds to the log keeps it in order. */
  lemma WindowLogged(t: Core, file: bytes, log: seq<Packet>)
    requires SenderOk(t, file) && t.phase.Send? && |log| == t.totalPackets
    requires LogOk(log, file, t.opts.blksize)
    ensures var (t', ps) := SendLoop(t, file, 0);
            && LogOk(log + ps, file, t.opts.blksize)
            && t'.opts == t.opts
            && (t'.phase.Done? || (SenderOk(t', file) && (t'.phase.Send? || t'.phase.SendLast?)
                                   && |log + ps| == t'.totalPackets))
  {
    hide SendLoop, Wire, Block;
    WindowSent(t, file, 0);
    var r := SendLoop(t, file, 0);
    var b, m := t.opts.blksize, t.totalPackets;
    var all := log + r.1;
    forall i | 0 <= i < |all|
      ensures all[i].Err? || (all[i] == Data(Wire(i + 1), Block(file, b, i + 1)) && i * b < |file|)
    {
      if i >= m && !all[i].Err? {
        assert all[i] == r.1[i - m];
        assert i < BlockCount(|file|, b);
        WholeBlocks(|file|, b, i);
      }
    }
    SendLoopKeepsOpts(t, file, 0);
  }

  /** The block size the client goes by: the server's when it has been told, or its own. */
  function ClientBlock(opts: Opts, requested: Opts, withOptions: bool): nat {
    if withOptions then opts.blksize else requested.blksize
  }

  /** What a request that is answered leads to; without an OACK the two ends need not agree. */
  predicate Served(opts: Opts, withOptions: bool) {
    0 < opts.blksize && 0 < opts.windowsize && (withOptions ==> Acceptable(opts))
  }

  lemma StartInv(file: bytes, opts: Opts, wrap: bool, requested: Opts, withOptions: bool, copies: nat)
    requires Served(opts, withOptions)
    ensures var s := Start(file, opts, wrap, requested, withOptions, copies);
            && Inv(s, file, ClientBlock(opts, requested, withOptions))
            && s.server.opts == opts && s.lost == s.taken == 0 && !s.client.isOpen
  {
    hide SendLoop;
    var t := AdvanceSend(InitRRQ(Fresh(true, wrap, opts), withOptions)).0;
    assert SenderOk(t, file);
    assert Kept(file, opts.blksize, 0, 0) == [];
    if !withOptions {
      WindowLogged(t, file, []);
      assert [] + SendLoop(t, file, 0).1 == SendLoop(t, file, 0).1;
    }
  }

  /** An ACK changes only the server and the log. */
  lemma AckKeepsServer(s: Net, file: bytes, n: nat)
    requires ServerSide(s, file)
    ensures var s' := Step(s, file, DeliverAck(n));
            ServerSide(s', file) && s'.server.opts == s.server.opts
            && s' == s.(server := s'.server, registered := s'.registered, log := s'.log)
            && (s.acks == {} ==> s' == s)
  {
    hide SendLoop, Wire, Block;
    if n in s.acks && s.registered {
      var t1 := HandleAck(s.server, n).0;
      if t1.phase.Send? {
        AckedIsOk(s.server, file, n);
        WindowLogged(t1, file, s.log);
      }
    }
  }

  lemma AckedIsOk(t: Core, file: bytes, n: nat)
    requires !t.phase.Done? ==> SenderOk(t, file)
    requires HandleAck(t, n).0.phase.Send?
    ensures var t1 := HandleAck(t, n).0; SenderOk(t1, file) && t1 == t.(lastAcked := t1.lastAcked)
  {
  }

  lemma AckKeepsInv(s: Net, file: bytes, n: nat, cb: nat)
    requires Inv(s, file, cb)
    ensures Inv(Step(s, file, DeliverAck(n)), file, cb)
  {
    hide Step, ServerSide;
    AckKeepsServer(s, file, n);
    assert s.client.isOpen || s.client.requested.blksize == cb || s.acks == {};
  }

  /** The client takes the block it waits for. */
  lemma GetsNext(c: Getter, file: bytes, b: nat, k: nat)
    requires c.status.Running? && c.blockNum == Wire(k) && OpenOnData(c).file == c.file
    ensures var next := Block(file, b, k + 1);
            var last := |next| < BlockSize(OpenOnData(c).validated);
            var full := last || c.packetsInWindow + 1 >= WindowSize(OpenOnData(c).validated);
            GetData(c, Wire(k + 1), next) ==
            (OpenOnData(c).(file := c.file + next,
                            bytesReceived := c.bytesReceived + |next|,
                            blockNum := Wire(k + 1),
                            packetsInWindow := if full then 0 else c.packetsInWindow + 1,
                            status := if last then Resolved else Running),
             if full then [Ack(Wire(k + 1))] else [])
  {
    BlockNumberingAgrees(k);
  }

  lemma DataKeepsInv(s: Net, file: bytes, i: nat, cb: nat)
    requires Inv(s, file, cb) && Near(s, DeliverToClient(i))
    ensures Inv(Step(s, file, DeliverToClient(i)), file, cb)
  {
    hide Wire, Block, GetData;
    if i < |s.log| && s.log[i].Data? && s.client.status.Running? {
      BlockNumberingAgrees(s.taken);
      WireAliases(i + 1, s.taken + 1);
      if s.log[i].block == ClientExpected(s.client.blockNum) {
        assert i == s.taken;
        BlockTaken(s, file, cb);
      } else {
        BlockRefused(s, file, s.log[i], cb);
      }
    }
  }

  lemma OpensSame(s: Net, file: bytes, cb: nat)
    requires Inv(s, file, cb) && s.log != []
    ensures var c := OpenOnData(s.client);
            && c.file == s.client.file && c.isOpen && c.validated.Some? && BlockSize(c.validated) == cb
            && c.blockNum == s.client.blockNum && c.status == s.client.status
  {
    hide Block, Wire;
  }

  lemma BlockTaken(s: Net, file: bytes, cb: nat)
    requires Inv(s, file, cb) && s.client.status.Running? && s.log != [] && s.taken * s.server.opts.blksize < |file|
    ensures Inv(ToClient(s, Data(Wire(s.taken + 1), Block(file, s.server.opts.blksize, s.taken + 1))), file, cb)
  {
    hide Wire, Block, GetData, BlockCount, Kept, LogOk, SenderOk;
    var b := s.server.opts.blksize;
    OpensSame(s, file, cb);
    GetsNext(s.client, file, b, s.taken);
    ExtendKept(file, b, s.lost, s.taken);
    BlockCounts(|file|, b, s.taken);
    BlockSizes(file, b, s.taken + 1);
  }

  lemma BlockRefused(s: Net, file: bytes, p: Packet, cb: nat)
    requires Inv(s, file, cb) && s.client.status.Running? && s.log != []
    requires p.Data? && p.block != ClientExpected(s.client.blockNum)
    ensures Inv(ToClient(s, p), file, cb)
  {
    hide Wire, Block, BlockCount, Kept, LogOk, SenderOk;
    OpensSame(s, file, cb);
  }

  lemma OackKeepsInv(s: Net, file: bytes, cb: nat)
    requires Inv(s, file, cb)
    ensures Inv(Step(s, file, DeliverOack), file, cb)
  {
    hide Wire, Block, BlockCount, Kept, LogOk, SenderOk, ValidateOptions, ValidatedToRaw;
    if s.oacks > 0 {
      ValidateRaw(s.server.opts);
      ExtendKept(file, s.server.opts.blksize, s.taken, s.taken);
    }
  }

  lemma StepKeepsInv(s: Net, file: bytes, e: Event, cb: nat)
    requires Inv(s, file, cb) && Near(s, e)
    ensures Inv(Step(s, file, e), file, cb)
  {
    hide ServerSide, ClientSide, Opening;
    match e
    case DeliverOack => OackKeepsInv(s, file, cb);
    case DeliverToClient(i) => DataKeepsInv(s, file, i, cb);
    case DeliverAck(n) => AckKeepsInv(s, file, n, cb);
    case _ => OthersKeepInv(s, file, e, cb);
  }

  lemma OthersKeepInv(s: Net, file: bytes, e: Event, cb: nat)
    requires Inv(s, file, cb) && (e.ClientGivesUp? || e.ServerCollects?)
    ensures Inv(Step(s, file, e), file, cb)
  {
    hide Wire, Block, BlockCount, Kept, LogOk, SenderOk;
  }

  lemma {:induction false} RunKeepsInv(s: Net, file: bytes, es: seq<Event>, cb: nat)
    requires Inv(s, file, cb) && AllNear(s, file, es)
    ensures Inv(Run(s, file, es), file, cb)
    decreases |es|
  {
    hide Inv, Step, Near;
    if es != [] {
      StepKeepsInv(s, file, es[0], cb);
      RunKeepsInv(Step(s, file, es[0]), file, es[1..], cb);
    }
  }

  // ---- With a single OACK ----------------------------------------------------------------

  /** No second OACK can come, and none has. */
  ghost predicate SingleOack(s: Net) {
    && s.lost == 0
    && (s.oacks > 0 ==> s.oacks == 1 && !s.client.isOpen && s.client.file == [] && s.log == [] && s.acks == {})
  }

  lemma {:induction false} RunKeepsSingle(s: Net, file: bytes, es: seq<Event>, cb: nat)
    requires Inv(s, file, cb) && AllNear(s, file, es) && SingleOack(s)
    ensures SingleOack(Run(s, file, es))
    decreases |es|
  {
    hide Inv, Step, Near, SingleOack;
    if es != [] {
      StepKeepsInv(s, file, es[0], cb);
      StepKeepsSingle(s, file, es[0], cb);
      RunKeepsSingle(Step(s, file, es[0]), file, es[1..], cb);
    }
  }

  lemma StepKeepsSingle(s: Net, file: bytes, e: Event, cb: nat)
    requires Inv(s, file, cb) && SingleOack(s)
    ensures SingleOack(Step(s, file, e))
  {
    hide SendLoop, ValidateOptions, ValidatedToRaw, HandleAck, Wire, Block, BlockCount, SenderOk;
    if s.taken == 0 {
      assert Kept(file, s.server.opts.blksize, 0, 0) == [];
    }
  }

  lemma InvSafe(s: Net, file: bytes, cb: nat)
    requires Inv(s, file, cb) && s.lost == 0 && (cb <= s.server.opts.blksize || |file| <= s.server.opts.blksize)
    ensures Safe(s, file)
  {
    hide Wire, Block, LogOk, SenderOk, ServerSide, Opening, BlockCount;
    var b, k := s.server.opts.blksize, s.taken;
    ExtendKept(file, b, 0, k);
    if k > 0 {
      BlockSizes(file, b, k);
      MulMono(1, k, b);
    }
  }

  /** Whatever the network does, for a file of any size and through any number of wraps:
      as long as no DATA arrives 65535 or more blocks out of place, the client's file is
      right at every moment, if its blocks are not larger than the server's. */
  lemma DownloadSafeWhenNear(
      file: bytes, opts: Opts, wrap: bool, requested: Opts, withOptions: bool, es: seq<Event>)
    requires Served(opts, withOptions)
    requires ClientBlock(opts, requested, withOptions) <= opts.blksize || |file| <= opts.blksize
    requires AllNear(Start(file, opts, wrap, requested, withOptions, 1), file, es)
    ensures Safe(Run(Start(file, opts, wrap, requested, withOptions, 1), file, es), file)
  {
    hide Inv, Step, Start;
    var s := Start(file, opts, wrap, requested, withOptions, 1);
    var cb := ClientBlock(opts, requested, withOptions);
    StartInv(file, opts, wrap, requested, withOptions, 1);
    StartSingle(file, opts, wrap, requested, withOptions);
    RunKeepsInv(s, file, es, cb);
    RunKeepsSingle(s, file, es, cb);
    RunKeepsOpts(s, file, es);
    InvSafe(Run(s, file, es), file, cb);
  }

  lemma StartSingle(file: bytes, opts: Opts, wrap: bool, requested: Opts, withOptions: bool)
    ensures var s := Start(file, opts, wrap, requested, withOptions, 1);
            SingleOack(s)
  {
    hide SendLoop;
  }

  lemma StepKeepsOpts(s: Net, file: bytes, e: Event)
    ensures Step(s, file, e).server.opts == s.server.opts
  {
    hide SendLoop, GetMessage;
    if e.DeliverAck? && e.n in s.acks && s.registered {
      SendLoopKeepsOpts(HandleAck(s.server, e.n).0, file, 0);
    }
  }

  lemma {:induction false} RunKeepsOpts(s: Net, file: bytes, es: seq<Event>)
    ensures Run(s, file, es).server.opts == s.server.opts
    decreases |es|
  {
    hide Step;
    if es != [] {
      StepKeepsOpts(s, file, es[0]);
      RunKeepsOpts(Step(s, file, es[0]), file, es[1..]);
    }
  }

  // ---- When nothing can be out of place ----------------------------------------------------

  /** The size of a file for which a download is safe. */
  predicate Fits(size: nat, b: nat, cb: nat) {
    if cb > b then size <= b else size < (WIRE_MAX - 1) * b + (if cb == 0 then 1 else cb)
  }

  /** With equal blocks it is 65535 of them, less one octet. */
  lemma FitsEqual(size: nat, b: nat)
    requires 0 < b
    ensures Fits(size, b, b) <==> size < WIRE_MAX * b
  {
  }

  lemma FitsNear(s: Net, file: bytes, e: Event, cb: nat)
    requires Inv(s, file, cb) && Fits(|file|, s.server.opts.blksize, cb)
    ensures Near(s, e)
  {
    hide Wire, Block, BlockCount, Kept, SenderOk;
    if e.DeliverToClient? && e.i < |s.log| && s.log[e.i].Data? && s.client.status.Running? {
      var b, k := s.server.opts.blksize, s.taken;
      if k > 0 {
        BlockSizes(file, b, k);
      }
      NearEnough(e.i, k, b, cb, |file|);
    }
  }

  lemma NearEnough(i: nat, k: nat, b: nat, cb: nat, size: nat)
    requires 0 < b && Fits(size, b, cb) && i * b < size
    requires k > 0 ==> (k - 1) * b < size && Min(b, size - (k - 1) * b) >= cb
    ensures i < k + WIRE_MAX && k < i + WIRE_MAX
  {
    if cb <= b {
      if i >= WIRE_MAX {
        MulMono(WIRE_MAX, i, b);
      }
      if k >= WIRE_MAX {
        MulMono(WIRE_MAX - 1, k - 1, b);
      }
    } else if i > 0 {
      MulMono(1, i, b);
    }
  }

  lemma {:induction false} FitsAllNear(s: Net, file: bytes, es: seq<Event>, cb: nat)
    requires Inv(s, file, cb) && Fits(|file|, s.server.opts.blksize, cb)
    ensures AllNear(s, file, es)
    decreases |es|
  {
    hide Inv, Step, Near, Fits;
    if es != [] {
      FitsNear(s, file, es[0], cb);
      StepKeepsInv(s, file, es[0], cb);
      StepKeepsOpts(s, file, es[0]);
      FitsAllNear(Step(s, file, es[0]), file, es[1..], cb);
    }
  }
}
