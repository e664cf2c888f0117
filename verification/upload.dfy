/** An upload over a network that loses, repeats and reorders packets: the client's `put`
    (src/tftp/client.mts) and the server (src/tftp/server.mts) with everything they have sent
    so far between them.  A retransmission timer only sends again what is already there. */
module Upload {
  import opened Bytes
  import opened Blocks
  import opened Options
  import opened Transfer
  import opened Emissions
  import opened TftpServer
  import opened TftpClient
  import opened UploadRepeats
  import UploadFifo

  /** `log` is every DATA the client has sent, `replies` every packet the server has; `got`
      counts the blocks the server has accepted, `acks` the ACKs it has sent for DATA, and
      `heard` says which replies have arrived.  No code reads these three. */
  datatype Net = Net(
    server: Core,
    registered: bool,
    disk: bytes,
    client: Putter,
    log: seq<Packet>,
    replies: seq<Packet>,
    got: nat,
    acks: nat,
    heard: set<nat>)

  datatype Event =
    | DeliverData(i: nat)
    | DeliverReply(j: nat)
    | ClientGivesUp
    | ServerCollects

  /** The WRQ has been handled: the OACK or ACK(0) has been sent. */
  function Start(opts: Opts, wrap: bool, requested: Opts, withOptions: bool): Net {
    var open := UploadFifo.Open(opts, wrap, requested, withOptions);
    Net(open.server, true, [], open.client, [], open.toClient, 0, 0, {})
  }

  function ArrivalOf(p: Packet): Arrival
    requires p.Data?
  {
    Arrival(p.block, p.data)
  }

  predicate Takes(s: Net, p: Packet) {
    p.Data? && Accepts(s.server, ArrivalOf(p))
  }

  function ToServer(s: Net, p: Packet): Net
    requires p.Data?
  {
    var (h, disk) := HandleTransferData(s.server, s.disk, p.block, p.data);
    s.(server := h.t, registered := h.registered, disk := disk, replies := s.replies + h.packets,
       got := if Takes(s, p) then s.got + 1 else s.got,
       acks := if h.packets != [] && h.packets[0].Ack? then s.acks + 1 else s.acks)
  }

  function Step(s: Net, source: bytes, e: Event): Net {
    match e
    case DeliverData(i) =>
      if i >= |s.log| || !s.log[i].Data? then s
      else if !s.registered then s.(replies := s.replies + [NO_ACTIVE_TRANSFER])
      else ToServer(s, s.log[i])
    case DeliverReply(j) =>
      if j >= |s.replies| then s
      else
        var (c, ps) := PutMessage(s.client, source, s.replies[j]);
        s.(client := c, log := s.log + ps, heard := s.heard + {j})
    case ClientGivesUp =>
      if s.client.status.Running? then s.(client := s.client.(status := Rejected)) else s
    case ServerCollects => s.(registered := false)
  }

  function Run(s: Net, source: bytes, es: seq<Event>): Net
    decreases |es|
  {
    if es == [] then s else Run(Step(s, source, es[0]), source, es[1..])
  }

  /** A DATA packet that reaches the waiting server is less than 65535 blocks away from the one
      it waits for. */
  predicate Near(s: Net, e: Event) {
    e.DeliverData? && e.i < |s.log| && s.registered ==> e.i < s.got + WIRE_MAX && s.got < e.i + WIRE_MAX
  }

  /** A DATA packet reaches the server that it does not wait for, once it has taken one. */
  predicate Stray(s: Net, e: Event) {
    e.DeliverData? && e.i < |s.log| && s.registered && 0 < s.got && !Takes(s, s.log[e.i])
  }

  predicate AllNear(s: Net, source: bytes, es: seq<Event>)
    decreases |es|
  {
    es == [] || (Near(s, es[0]) && AllNear(Step(s, source, es[0]), source, es[1..]))
  }

  predicate NoStray(s: Net, source: bytes, es: seq<Event>)
    decreases |es|
  {
    es == [] || (!Stray(s, es[0]) && NoStray(Step(s, source, es[0]), source, es[1..]))
  }

  // ---- The invariant -----------------------------------------------------------------------

  ghost predicate ServerSide(s: Net, source: bytes) {
    var b := s.server.opts.blksize;
    && 0 < b && 0 < s.server.opts.windowsize && s.got <= BlockCount(|source|, b)
    && (s.registered ==>
          && s.server.phase.Recv? && s.server.blockNum == UploadFifo.Awaited(s.server.wrap, s.got)
          && s.got * b <= |source| && (s.server.wrap || s.got <= WIRE_MAX)
          && s.server.recvData == if s.got == 0 then [] else Block(source, b, s.got))
  }

  /** What the client has sent is the beginning of its file, block by block. */
  ghost predicate ClientSide(s: Net, source: bytes) {
    var b := s.server.opts.blksize;
    && 0 < b && s.log == Emission(source, b, 0, s.client.blockNum)
    && s.client.blockNum <= BlockCount(|source|, b)
    && s.client.offset == s.client.bytesSent == Min(s.client.blockNum * b, |source|)
    && (s.client.isOpen ==>
          && s.client.validated.Some?
          && BlockSize(s.client.validated) == b && WindowSize(s.client.validated) == s.server.opts.windowsize)
  }

  /** Before the client has opened its file there is the server's first answer only. */
  ghost predicate Opening(s: Net) {
    && (forall j :: 0 <= j < |s.replies| && s.replies[j].Oack? ==> s.replies[j] == Oack(ValidatedToRaw(s.server.opts)))
    && (forall j :: 0 <= j < |s.replies| ==> s.replies[j].Ack? || s.replies[j].Oack? || s.replies[j].Err?)
    && ((exists j :: 0 <= j < |s.replies| && s.replies[j].Oack?) ==> Acceptable(s.server.opts))
    && (!s.client.isOpen ==>
          && s.client.blockNum == 0 && |s.replies| == 1 && !s.client.status.Resolved?
          && (s.replies == [Oack(ValidatedToRaw(s.server.opts))]
              || (s.replies == [Ack(0)] && s.client.requested.blksize == s.server.opts.blksize
                  && s.client.requested.windowsize == s.server.opts.windowsize)))
  }

  ghost predicate Inv(s: Net, source: bytes) {
    ServerSide(s, source) && ClientSide(s, source) && Opening(s)
  }

  lemma StartInv(source: bytes, opts: Opts, wrap: bool, requested: Opts, withOptions: bool)
    requires Agreed(opts, requested, withOptions)
    ensures var s := Start(opts, wrap, requested, withOptions);
            Inv(s, source) && s.server.opts == opts && s.disk == [] && s.got == 0
  {
    assert Emission(source, opts.blksize, 0, 0) == [];
  }

  // ---- The client hears --------------------------------------------------------------------

  /** The client that is to send its next window. */
  ghost predicate Ready(c: Putter, source: bytes, b: nat, w: nat) {
    && c.isOpen && c.validated.Some? && BlockSize(c.validated) == b && WindowSize(c.validated) == w && 0 < b
    && c.blockNum <= BlockCount(|source|, b) && c.offset == c.bytesSent == Min(c.blockNum * b, |source|)
  }

  lemma WindowGoes(c: Putter, source: bytes, b: nat, w: nat)
    requires Ready(c, source, b, w)
    ensures var (c', ps) := SendNextWindow(c, source);
            && Ready(c', source, b, w) && c'.status == c.status && c'.validated == c.validated
            && c'.requested == c.requested
            && c'.blockNum == Min(c.blockNum + w, BlockCount(|source|, b))
            && ps == Emission(source, b, c.blockNum, c'.blockNum - c.blockNum)
  {
    hide Emission, BlockCount;
    PutWindowSent(c, source, 0);
  }

  /** What a reply does to the client that listens: an ACK or OACK opens its file, if need be,
      and releases a window, or ends the transfer when all has been sent. */
  lemma HearsReply(s: Net, source: bytes, p: Packet)
    requires Inv(s, source) && p in s.replies && s.client.status.Running?
    ensures var (c, ps) := PutMessage(s.client, source, p);
            var b, w := s.server.opts.blksize, s.server.opts.windowsize;
            && 0 < b && (p.Err? || p.Ack? || p.Oack?)
            && (p.Err? ==> c == s.client.(status := Rejected) && ps == [])
            && (!p.Err? ==> Ready(c, source, b, w))
            && (p.Ack? && s.client.offset >= |source| ==>
                  c.status.Resolved? && c.blockNum == s.client.blockNum && ps == [])
            && (p.Oack? || (p.Ack? && s.client.offset < |source|) ==>
                  && c.status.Running? && c.blockNum == Min(s.client.blockNum + w, BlockCount(|source|, b))
                  && ps == Emission(source, b, s.client.blockNum, c.blockNum - s.client.blockNum))
  {
    hide Emission, BlockCount, PutWindow, SendNextWindow, ValidateOptions, ValidatedToRaw;
    var b, w := s.server.opts.blksize, s.server.opts.windowsize;
    var j :| 0 <= j < |s.replies| && s.replies[j] == p;
    match p
    case Oack(options) =>
      ValidateRaw(s.server.opts);
      WindowGoes(s.client.(validated := Some(s.server.opts), isOpen := true), source, b, w);
    case Ack(block) =>
      var c := if s.client.isOpen then s.client
               else s.client.(validated := Some(WithoutOack(s.client.requested)), isOpen := true);
      WindowGoes(c, source, b, w);
    case _ =>
  }

  lemma ReplyKeepsInv(s: Net, source: bytes, j: nat)
    requires Inv(s, source)
    ensures Inv(Step(s, source, DeliverReply(j)), source)
  {
    hide Emission, BlockCount, PutMessage, ValidatedToRaw, Block;
    if j < |s.replies| {
      assert s.log + [] == s.log;
      if s.client.status.Running? {
        var p := s.replies[j];
        HearsReply(s, source, p);
        var c := PutMessage(s.client, source, p).0;
        if p.Oack? || (p.Ack? && s.client.offset < |source|) {
          EmissionAppend(source, s.server.opts.blksize, 0, s.client.blockNum, c.blockNum - s.client.blockNum);
        }
      } else {
        NotListening(s.client, source, s.replies[j]);
      }
    }
  }

  lemma NotListening(c: Putter, source: bytes, p: Packet)
    requires !c.status.Running?
    ensures PutMessage(c, source, p) == (c, [])
  {
  }

  // ---- The server hears --------------------------------------------------------------------

  /** The block it waits for, and no other, is taken. */
  lemma TakesNext(s: Net, source: bytes, i: nat)
    requires Inv(s, source) && s.registered && i < |s.log| && Near(s, DeliverData(i))
    ensures var b := s.server.opts.blksize;
            && 0 < b && i * b < |source|
            && s.log[i] == Data(Wire(i + 1), Block(source, b, i + 1)) && 0 < |Block(source, b, i + 1)| <= b
            && (Takes(s, s.log[i]) <==> i == s.got && (s.server.wrap || s.got < WIRE_MAX))
  {
    hide Wire, Block, BlockCount, Emission;
    var b := s.server.opts.blksize;
    LogEntry(s, source, i);
    BlockCounts(|source|, b, i);
    BlockSizes(source, b, i + 1);
    NumberIsNext(i, s.got, s.server.wrap);
  }

  /** Less than 65535 blocks apart, the awaited number is that of the awaited block only. */
  lemma NumberIsNext(i: nat, got: nat, wrap: bool)
    requires i < got + WIRE_MAX && got < i + WIRE_MAX && (wrap || got <= WIRE_MAX)
    ensures Wire(i + 1) == UploadFifo.Awaited(wrap, got) <==> i == got && (wrap || got < WIRE_MAX)
  {
    hide Wire;
    BlockNumberingAgrees(i + 1);
    BlockNumberingAgrees(got + 1);
    WireAliases(i + 1, got + 1);
  }

  lemma LogEntry(s: Net, source: bytes, i: nat)
    requires ClientSide(s, source) && i < |s.log|
    ensures i < s.client.blockNum && s.log[i] == Data(Wire(i + 1), Block(source, s.server.opts.blksize, i + 1))
  {
  }

  /** The disk holds exactly the blocks taken; or more than them. */
  ghost predicate Exact(s: Net, source: bytes) {
    s.disk == FirstBlocks(source, s.server.opts.blksize, s.got)
  }

  ghost predicate Swollen(s: Net, source: bytes) {
    |s.disk| > |FirstBlocks(source, s.server.opts.blksize, s.got)|
  }

  /** What a DATA packet does to the registered server. */
  lemma HearsData(s: Net, source: bytes, i: nat)
    requires Inv(s, source) && s.registered && i < |s.log| && Near(s, DeliverData(i))
    ensures var s' := Step(s, source, DeliverData(i));
            var b, chunk := s.server.opts.blksize, Block(source, s.server.opts.blksize, s.got + 1);
            && s'.server.opts == s.server.opts && s'.server.wrap == s.server.wrap
            && (Takes(s, s.log[i]) ==>
                  && s'.got == s.got + 1 && s'.disk == s.disk + chunk && s'.server.recvData == chunk
                  && 0 < |chunk| <= b && s.got * b < |source|
                  && s'.registered == (|chunk| == b)
                  && (s'.registered ==>
                        && s'.server.phase.Recv?
                        && s'.server.blockNum == NextBlock(s.server.blockNum, s.server.wrap)))
            && (!Takes(s, s.log[i]) ==>
                  && s'.got == s.got && s'.disk == s.disk + s.server.recvData
                  && (s'.registered ==> s'.server == s.server && s.log[i].block + 1 == s.server.blockNum))
  {
    hide Wire, Block, BlockCount;
    TakesNext(s, source, i);
    OneArrival(s.server, s.disk, ArrivalOf(s.log[i]));
  }

  lemma DataKeepsInv(s: Net, source: bytes, i: nat)
    requires Inv(s, source) && Near(s, DeliverData(i))
    ensures Inv(Step(s, source, DeliverData(i)), source)
  {
    hide Wire, Block, BlockCount, HandleTransferData, Emission;
    var s' := Step(s, source, DeliverData(i));
    if i < |s.log| {
      LogEntry(s, source, i);
      if s.registered {
        TakesNext(s, source, i);
        HearsData(s, source, i);
        AnswersData(s, i);
        if Takes(s, s.log[i]) {
          TakenKeeps(s, source, i);
        }
      }
    }
  }

  /** The server answers DATA with at most one packet, an ACK or an ERROR. */
  lemma AnswersData(s: Net, i: nat)
    requires i < |s.log| && s.log[i].Data?
    ensures var packets := HandleTransferData(s.server, s.disk, s.log[i].block, s.log[i].data).0.packets;
            packets == [] || (|packets| == 1 && (packets[0].Ack? || packets[0].Err?))
  {
  }

  lemma TakenKeeps(s: Net, source: bytes, i: nat)
    requires Inv(s, source) && s.registered && i < |s.log| && Near(s, DeliverData(i)) && Takes(s, s.log[i])
    ensures ServerSide(Step(s, source, DeliverData(i)), source)
  {
    hide Wire, Block, Step, Emission;
    var b := s.server.opts.blksize;
    TakesNext(s, source, i);
    HearsData(s, source, i);
    BlockCounts(|source|, b, s.got);
    BlockSizes(source, b, s.got + 1);
    BlockNumberingAgrees(s.got + 1);
  }

  lemma StepKeepsInv(s: Net, source: bytes, e: Event)
    requires Inv(s, source) && Near(s, e)
    ensures Inv(Step(s, source, e), source) && Step(s, source, e).server.opts == s.server.opts
  {
    hide Emission, BlockCount, PutMessage, ValidatedToRaw, Block, HandleTransferData;
    match e
    case DeliverData(i) =>
      DataKeepsInv(s, source, i);
      if i < |s.log| && s.registered { HearsData(s, source, i); }
    case DeliverReply(j) => ReplyKeepsInv(s, source, j);
    case _ =>
  }

  // ---- When the server's file is exact -----------------------------------------------------

  lemma StepExact(s: Net, source: bytes, e: Event)
    requires Inv(s, source) && Near(s, e)
    ensures var s' := Step(s, source, e);
            && (Exact(s, source) && !Stray(s, e) ==> Exact(s', source))
            && (Exact(s, source) && Stray(s, e) ==> Swollen(s', source))
            && (Swollen(s, source) ==> Swollen(s', source))
  {
    hide Emission, BlockCount, PutMessage, Block, HandleTransferData, FirstBlocks, Near;
    if e.DeliverData? && e.i < |s.log| && s.registered {
      HearsData(s, source, e.i);
      ExtendBlocks(source, s.server.opts.blksize, s.got);
      Retained(s, source);
      assert s.disk + [] == s.disk;
    }
  }

  lemma Retained(s: Net, source: bytes)
    requires Inv(s, source) && s.registered
    ensures s.server.recvData != [] <==> 0 < s.got
  {
    hide Emission;
    if 0 < s.got {
      BlockSizes(source, s.server.opts.blksize, s.got);
    }
  }

  lemma {:induction false} RunExact(s: Net, source: bytes, es: seq<Event>)
    requires Inv(s, source) && AllNear(s, source, es) && (Exact(s, source) || Swollen(s, source))
    ensures Inv(Run(s, source, es), source) && Run(s, source, es).server.opts == s.server.opts
    ensures Exact(Run(s, source, es), source) <==> Exact(s, source) && NoStray(s, source, es)
    decreases |es|
  {
    hide Inv, Step, Near, Stray;
    if es != [] {
      StepKeepsInv(s, source, es[0]);
      StepExact(s, source, es[0]);
      RunExact(Step(s, source, es[0]), source, es[1..]);
    }
  }

  lemma StartExact(source: bytes, opts: Opts, wrap: bool, requested: Opts, withOptions: bool)
    requires Agreed(opts, requested, withOptions)
    ensures var s := Start(opts, wrap, requested, withOptions); Exact(s, source)
  {
  }

  /** Whatever the network does, for a file of any size and through any number of wraps: as long
      as no DATA arrives 65535 or more blocks out of place, the server's file is exactly the
      blocks it has taken - the beginning of the client's - if and only if no DATA that it does
      not wait for has reached it after the first one. */
  lemma UploadExactOnNetIff(
      source: bytes, opts: Opts, wrap: bool, requested: Opts, withOptions: bool, es: seq<Event>)
    requires Agreed(opts, requested, withOptions)
    requires AllNear(Start(opts, wrap, requested, withOptions), source, es)
    ensures var s := Start(opts, wrap, requested, withOptions);
            var e := Run(s, source, es);
            e.disk == FirstBlocks(source, opts.blksize, e.got) <==> NoStray(s, source, es)
  {
    hide Inv, Step, Start;
    StartInv(source, opts, wrap, requested, withOptions);
    StartExact(source, opts, wrap, requested, withOptions);
    RunExact(Start(opts, wrap, requested, withOptions), source, es);
  }

  // ---- When the client can trust the ACKs ----------------------------------------------------

  /** Nothing stray, and no reply arrives twice. */
  predicate Orderly(s: Net, e: Event) {
    Near(s, e) && !Stray(s, e) && (e.DeliverReply? ==> e.j !in s.heard)
  }

  predicate AllOrderly(s: Net, source: bytes, es: seq<Event>)
    decreases |es|
  {
    es == [] || (Orderly(s, es[0]) && AllOrderly(Step(s, source, es[0]), source, es[1..]))
  }

  /** The replies heard that have released a window each: the first, and ACKs. */
  function Released(s: Net): set<nat> {
    set j | j in s.heard && j <= s.acks
  }

  /** Each ACK stands for a window that the server has taken. */
  ghost predicate Earned(s: Net, source: bytes) {
    var b, w := s.server.opts.blksize, s.server.opts.windowsize;
    && 0 < b
    && (forall j :: j in s.heard ==> j < |s.replies|)
    && s.acks < |s.replies| && (s.registered ==> s.acks + 1 == |s.replies|)
    && (forall j :: 0 <= j < |s.replies| ==> (s.replies[j].Err? <==> s.acks < j))
    && (s.registered ==> s.acks * w <= s.server.lastAcked <= s.got)
    && (s.acks * w <= s.got || s.got == BlockCount(|source|, b))
  }

  ghost predicate InStep(s: Net, source: bytes) {
    var b, w := s.server.opts.blksize, s.server.opts.windowsize;
    && 0 < b
    && (s.client.status.Running? ==> s.client.blockNum == Min(w * |Released(s)|, BlockCount(|source|, b)))
    && (s.client.status.Resolved? ==> s.got == BlockCount(|source|, b))
  }

  lemma SubsetSize(a: set<nat>, n: nat)
    requires forall j :: j in a ==> j < n
    ensures |a| <= n
    decreases n
  {
    if n > 0 {
      SubsetSize(a - {n - 1}, n - 1);
    }
  }

  lemma ReplyInStep(s: Net, source: bytes, j: nat)
    requires Inv(s, source) && Earned(s, source) && InStep(s, source) && j !in s.heard && j < |s.replies|
    ensures InStep(Step(s, source, DeliverReply(j)), source)
  {
    hide Emission, BlockCount, PutMessage, Released;
    var b, w := s.server.opts.blksize, s.server.opts.windowsize;
    var s' := Step(s, source, DeliverReply(j));
    if s.client.status.Running? {
      HearsReply(s, source, s.replies[j]);
      ReleasesOne(s, s', j);
      if !s.replies[j].Err? {
        assert w * (|Released(s)| + 1) == w * |Released(s)| + w;
        if s'.client.status.Resolved? {
          AllSent(s, source);
          assert |Released(s)| <= s.acks;
          MulMono(|Released(s)|, s.acks, w);
        }
      }
    } else {
      NotListening(s.client, source, s.replies[j]);
    }
  }

  lemma AllSent(s: Net, source: bytes)
    requires ClientSide(s, source) && s.client.offset >= |source|
    ensures s.client.blockNum == BlockCount(|source|, s.server.opts.blksize)
  {
    hide Emission;
    BlockCounts(|source|, s.server.opts.blksize, s.client.blockNum);
  }

  lemma ReleasesOne(s: Net, s': Net, j: nat)
    requires j !in s.heard && s'.heard == s.heard + {j} && s'.acks == s.acks
    requires forall k :: k in s.heard ==> k < |s.replies|
    ensures j <= s.acks ==> |Released(s')| == |Released(s)| + 1 && |Released(s')| <= s.acks + 1
    ensures j > s.acks ==> Released(s') == Released(s)
  {
    if j <= s.acks {
      assert Released(s') == Released(s) + {j};
      SubsetSize(Released(s'), s.acks + 1);
    } else {
      assert Released(s') == Released(s);
    }
  }

  lemma DataEarned(s: Net, source: bytes, i: nat)
    requires Inv(s, source) && Earned(s, source) && s.registered && i < |s.log|
    requires Near(s, DeliverData(i)) && (Takes(s, s.log[i]) || s.got == 0)
    ensures Earned(Step(s, source, DeliverData(i)), source)
  {
    hide Inv, Step, Near, Takes, Wire, Block, BlockCount;
    var s' := Step(s, source, DeliverData(i));
    HearsData(s, source, i);
    OnlyData(s, s', source, i);
    if Takes(s, s.log[i]) {
      AckEarned(s, source, i);
      EarnedByTaking(s, s', source);
    } else {
      RefusedEarly(s, source, i);
      EarnedByRefusing(s, s', source);
    }
  }

  lemma OnlyData(s: Net, s': Net, source: bytes, i: nat)
    requires s' == Step(s, source, DeliverData(i))
    ensures s'.heard == s.heard && s'.client == s.client
  {
    hide HandleTransferData;
  }

  lemma EarnedByTaking(s: Net, s': Net, source: bytes)
    requires Earned(s, source) && s.registered && s'.server.opts == s.server.opts && s'.got == s.got + 1
    requires s'.heard == s.heard && (s'.registered ==> s'.server.lastAcked <= s'.got)
    requires s'.acks == s.acks ==> s'.replies == s.replies && s'.registered && s'.server.lastAcked == s.server.lastAcked
    requires s'.acks != s.acks ==>
               && s'.acks == s.acks + 1 && |s'.replies| == |s.replies| + 1 && s'.replies[|s.replies|].Ack?
               && s'.replies[..|s.replies|] == s.replies
               && (s'.registered ==> s'.server.lastAcked >= s.server.lastAcked + s.server.opts.windowsize)
               && (!s'.registered ==> s'.got == BlockCount(|source|, s.server.opts.blksize))
    ensures Earned(s', source)
  {
    hide BlockCount;
    var w := s.server.opts.windowsize;
    assert (s.acks + 1) * w == s.acks * w + w;
    forall j | 0 <= j < |s'.replies| ensures s'.replies[j].Err? <==> s'.acks < j {
      assert j < |s.replies| ==> s'.replies[j] == s'.replies[..|s.replies|][j];
    }
  }

  lemma EarnedByRefusing(s: Net, s': Net, source: bytes)
    requires Earned(s, source) && s.registered && s'.server.opts == s.server.opts && s'.got == s.got
    requires s'.heard == s.heard && !s'.registered && s'.acks == s.acks
    requires |s'.replies| == |s.replies| + 1 && s'.replies[|s.replies|].Err? && s'.replies[..|s.replies|] == s.replies
    ensures Earned(s', source)
  {
    hide BlockCount;
    forall j | 0 <= j < |s'.replies| ensures s'.replies[j].Err? <==> s'.acks < j {
      assert j < |s.replies| ==> s'.replies[j] == s'.replies[..|s.replies|][j];
    }
  }

  /** An ACK for DATA goes out a window after the one before, or for the last block. */
  lemma AckEarned(s: Net, source: bytes, i: nat)
    requires Inv(s, source) && s.registered && i < |s.log| && Near(s, DeliverData(i)) && Takes(s, s.log[i])
    requires s.server.lastAcked <= s.got
    ensures var s' := Step(s, source, DeliverData(i));
            var b, w := s.server.opts.blksize, s.server.opts.windowsize;
            && 0 < b
            && (s'.registered ==> s'.server.lastAcked <= s'.got)
            && (s'.acks == s.acks ==> s'.replies == s.replies && s'.registered && s'.server.lastAcked == s.server.lastAcked)
            && (s'.acks != s.acks ==>
                  && s'.acks == s.acks + 1 && |s'.replies| == |s.replies| + 1 && s'.replies[|s.replies|].Ack?
                  && s'.replies[..|s.replies|] == s.replies
                  && (s'.registered ==> s'.server.lastAcked >= s.server.lastAcked + w)
                  && (!s'.registered ==> s'.got == BlockCount(|source|, b)))
  {
    hide Wire, Block, BlockCount, Emission;
    var b := s.server.opts.blksize;
    TakesNext(s, source, i);
    BlockNumberingAgrees(s.got + 1);
    WireBelow(s.got + 1);
    BlockSizes(source, b, s.got + 1) by { BlockCounts(|source|, b, s.got); }
    BlockCounts(|source|, b, s.got);
    BlockCounts(|source|, b, s.got + 1);
    assert HandleData(s.server, s.log[i].block, s.log[i].data) == AcceptData(s.server, s.log[i].data);
  }

  lemma WireBelow(n: nat)
    ensures Wire(n) <= n
  {
  }

  /** Before the first block there is none to acknowledge again: DATA that is not it is an error. */
  lemma RefusedEarly(s: Net, source: bytes, i: nat)
    requires Inv(s, source) && s.registered && i < |s.log| && Near(s, DeliverData(i)) && !Takes(s, s.log[i]) && s.got == 0
    ensures var s' := Step(s, source, DeliverData(i));
            && !s'.registered && s'.acks == s.acks && s'.got == s.got && s'.server.opts == s.server.opts
            && |s'.replies| == |s.replies| + 1 && s'.replies[|s.replies|].Err? && s'.replies[..|s.replies|] == s.replies
  {
    hide Block, BlockCount, Emission;
    TakesNext(s, source, i);
    BlockNumberingAgrees(i + 1);
    assert s.server.blockNum == 1;
    UploadFifo.MistakenReply(s.server, s.disk, s.log[i].block, s.log[i].data);
  }

  lemma StepEarned(s: Net, source: bytes, e: Event)
    requires Inv(s, source) && Earned(s, source) && Orderly(s, e)
    ensures Earned(Step(s, source, e), source)
  {
    hide Inv, HandleTransferData, PutMessage, BlockCount;
    match e
    case DeliverData(i) =>
      if i < |s.log| && s.registered {
        LogIsData(s, source, i);
        DataEarned(s, source, i);
      }
    case _ =>
  }

  lemma LogIsData(s: Net, source: bytes, i: nat)
    requires Inv(s, source) && i < |s.log| && s.registered
    ensures s.log[i].Data? && (Stray(s, DeliverData(i)) <==> 0 < s.got && !Takes(s, s.log[i]))
  {
    LogEntry(s, source, i);
  }

  lemma StepInStep(s: Net, source: bytes, e: Event)
    requires Inv(s, source) && Earned(s, source) && InStep(s, source) && Orderly(s, e)
    ensures InStep(Step(s, source, e), source)
  {
    hide Inv, Earned, HandleTransferData, PutMessage, BlockCount;
    match e
    case DeliverData(i) =>
      if i < |s.log| && s.registered {
        LogIsData(s, source, i);
        HearsData(s, source, i);
        OnlyData(s, Step(s, source, e), source, i);
        SameReleased(s, Step(s, source, e), source, i);
      } else {
        assert Released(Step(s, source, e)) == Released(s);
      }
    case DeliverReply(j) =>
      if j < |s.replies| { ReplyInStep(s, source, j); }
    case _ =>
      assert Released(Step(s, source, e)) == Released(s);
  }

  /** Taking DATA releases nothing, and only finishes what was not finished. */
  lemma SameReleased(s: Net, s': Net, source: bytes, i: nat)
    requires Inv(s, source) && Earned(s, source) && s.registered && i < |s.log| && s' == Step(s, source, DeliverData(i))
    requires Near(s, DeliverData(i)) && (Takes(s, s.log[i]) || s.got == 0)
    ensures Released(s') == Released(s)
    ensures s.got == BlockCount(|source|, s.server.opts.blksize) ==> s'.got == s.got
  {
    hide Wire, Block, BlockCount, Emission;
    OnlyData(s, s', source, i);
    HearsData(s, source, i);
    if Takes(s, s.log[i]) {
      AckEarned(s, source, i);
      BlockCounts(|source|, s.server.opts.blksize, s.got);
    } else {
      RefusedEarly(s, source, i);
    }
  }

  lemma {:induction false} RunInStep(s: Net, source: bytes, es: seq<Event>)
    requires Inv(s, source) && Earned(s, source) && InStep(s, source) && Exact(s, source) && AllOrderly(s, source, es)
    ensures var e := Run(s, source, es);
            Inv(e, source) && InStep(e, source) && Exact(e, source) && e.server.opts == s.server.opts
    decreases |es|
  {
    hide Inv, Earned, InStep, Exact, Step, Near, Stray;
    if es != [] {
      StepKeepsInv(s, source, es[0]);
      StepExact(s, source, es[0]);
      StepEarned(s, source, es[0]);
      StepInStep(s, source, es[0]);
      RunInStep(Step(s, source, es[0]), source, es[1..]);
    }
  }

  lemma StartInStep(source: bytes, opts: Opts, wrap: bool, requested: Opts, withOptions: bool)
    requires Agreed(opts, requested, withOptions)
    ensures var s := Start(opts, wrap, requested, withOptions); Earned(s, source) && InStep(s, source)
  {
    assert Released(Start(opts, wrap, requested, withOptions)) == {};
  }

  /** In an orderly run - packets are lost and delayed at will, but no DATA strays and no reply
      is repeated - a `put` that resolves has delivered its file. */
  lemma ResolvedIsDelivered(
      source: bytes, opts: Opts, wrap: bool, requested: Opts, withOptions: bool, es: seq<Event>)
    requires Agreed(opts, requested, withOptions)
    requires AllOrderly(Start(opts, wrap, requested, withOptions), source, es)
    ensures var e := Run(Start(opts, wrap, requested, withOptions), source, es);
            && e.disk == FirstBlocks(source, opts.blksize, e.got)
            && (e.client.status.Resolved? ==> e.disk == source)
  {
    hide Inv, Step, Start;
    StartInv(source, opts, wrap, requested, withOptions);
    StartExact(source, opts, wrap, requested, withOptions);
    StartInStep(source, opts, wrap, requested, withOptions);
    RunInStep(Start(opts, wrap, requested, withOptions), source, es);
    WholeFile(source, opts.blksize);
  }

  lemma WholeFile(source: bytes, b: nat)
    requires 0 < b
    ensures FirstBlocks(source, b, BlockCount(|source|, b)) == source
  {
    BlockCounts(|source|, b, BlockCount(|source|, b));
  }
}
