/** Downloads on the octets of their datagrams: what the listeners of both ends do with them
    is what the transfer theorems say about packets. */
module Octets {
  import opened Bytes
  import opened Ascii
  import opened Buffers
  import opened Blocks
  import opened Options
  import opened Transfer
  import opened Emissions
  import opened TftpServer
  import opened TftpClient
  import opened TftpCodec
  import opened Negotiation
  import opened TftpService
  import opened Download
  import DownloadFifo
  import DownloadLimit
  import EndToEnd

  /** A packet that the other end reads as it was meant. */
  predicate Legible(p: Packet) {
    match p
    case Data(n, _) => n <= WIRE_MAX
    case Ack(n) => n <= WIRE_MAX
    case Err(code, _) => code <= WIRE_MAX
    case Oack(options) => options != [] && GoodNames(options) && LastNonEmpty(options)
    case _ => false
  }

  predicate AllLegible(log: seq<Packet>) {
    forall i :: 0 <= i < |log| ==> Legible(log[i])
  }

  predicate SmallErrors(log: seq<Packet>) {
    forall i :: 0 <= i < |log| && log[i].Err? ==> log[i].code <= WIRE_MAX
  }

  lemma OpcodeOf(p: Packet)
    requires Legible(p)
    ensures |PacketBytes(p)| >= OPCODE_LEN
    ensures ReadU16(PacketBytes(p)) == match p
                                       case Data(_, _) => DATA
                                       case Ack(_) => ACK
                                       case Err(_, _) => ERROR
                                       case _ => OACK
  {
    match p
    case Data(n, data) =>
      assert PacketBytes(p) == U16(DATA) + (U16(n) + data);
      ReadU16Of(DATA, U16(n) + data);
    case Ack(n) => ReadU16Of(ACK, U16(n));
    case Err(code, message) =>
      assert PacketBytes(p) == U16(ERROR) + (U16(code) + NullString(message));
      ReadU16Of(ERROR, U16(code) + NullString(message));
    case Oack(options) => ReadU16Of(OACK, OptionPairs(options));
  }

  /** The message of an ERROR may be garbled on its way; that it is one cannot. */
  lemma Reads(p: Packet)
    requires Legible(p)
    ensures ParsePacket(PacketBytes(p)).Parsed?
    ensures if p.Err? then ParsePacket(PacketBytes(p)).p.Err? else ParsePacket(PacketBytes(p)).p == p
  {
    match p
    case Data(n, data) => NumberedRoundTrip(n, data);
    case Ack(n) => NumberedRoundTrip(n, []);
    case Err(code, message) => ErrorIsOne(code, message);
    case Oack(options) => OackRoundTrip(options);
  }

  lemma ErrorIsOne(code: nat, message: string)
    requires code <= WIRE_MAX
    ensures ParsePacket(PacketBytes(Err(code, message))).Parsed? && ParsePacket(PacketBytes(Err(code, message))).p.Err?
  {
    OpcodeOf(Err(code, message));
  }

  lemma GetterReads(c: Getter, p: Packet)
    requires Legible(p)
    ensures GetDatagram(c, PacketBytes(p)) == GetMessage(c, p)
  {
    hide PacketBytes, ParsePacket, GetOack, GetData, Legible;
    OpcodeOf(p);
    Reads(p);
  }

  lemma PutterReads(c: Putter, source: bytes, p: Packet)
    requires Legible(p)
    ensures PutDatagram(c, source, PacketBytes(p)) == PutMessage(c, source, p)
  {
    hide PacketBytes, ParsePacket, PutOack, PutAck, Legible;
    OpcodeOf(p);
    Reads(p);
  }

  lemma ServerReads(t: Core, p: Packet, file: bytes)
    requires Legible(p) && (p.Ack? || p.Data?)
    ensures Route(t, PacketBytes(p), file) ==
            if p.Ack? then (HandleTransferAck(t, file, p.block), []) else HandleTransferData(t, [], p.block, p.data)
  {
    hide PacketBytes, ParsePacket, HandleTransferAck, HandleTransferData, Legible;
    OpcodeOf(p);
    Reads(p);
  }

  // ---- Runs --------------------------------------------------------------------------------

  function ToClientOctets(s: Net, buf: bytes): Net {
    var (c, replies) := GetDatagram(s.client, buf);
    s.(client := c,
       acks := s.acks + Acked(replies),
       taken := if |c.file| > |s.client.file| then s.taken + 1 else s.taken,
       lost := if |c.file| < |s.client.file| then s.taken else s.lost)
  }

  /** A step of the network of `Download`, with every packet as the octets it is sent in. */
  function StepOctets(s: Net, file: bytes, e: Event): Net
    requires AllLegible(s.log)
    requires forall n :: n in s.acks ==> n <= WIRE_MAX
  {
    match e
    case DeliverOack =>
      if s.oacks == 0 then s
      else ToClientOctets(s, PacketBytes(Oack(ValidatedToRaw(s.server.opts)))).(oacks := s.oacks - 1)
    case DeliverToClient(i) =>
      if i < |s.log| then ToClientOctets(s, PacketBytes(s.log[i])) else s
    case DeliverAck(n) =>
      if n !in s.acks then s
      else if !s.registered then s.(log := s.log + [NO_ACTIVE_TRANSFER])
      else
        var h := Route(s.server, PacketBytes(Ack(n)), file).0;
        s.(server := h.t, registered := h.registered, log := s.log + h.packets)
    case _ => Step(s, file, e)
  }

  /** Everything under way is legible. */
  ghost predicate Clear(s: Net, file: bytes) {
    && ServerSide(s, file)
    && AllLegible(s.log)
    && (forall n :: n in s.acks ==> n <= WIRE_MAX)
    && s.client.blockNum <= WIRE_MAX && (s.oacks > 0 ==> s.server.opts.tsize.Some?)
  }

  lemma StepClear(s: Net, file: bytes, e: Event)
    requires Clear(s, file)
    ensures StepOctets(s, file, e) == Step(s, file, e)
    ensures Clear(Step(s, file, e), file)
  {
    hide ServerSide, Legible, GetMessage, GetDatagram, PacketBytes, SendLoop, HandleTransferAck, ValidatedToRaw;
    match e
    case DeliverOack =>
      if s.oacks > 0 {
        OackIsLegible(s.server.opts);
        GetterReads(s.client, Oack(ValidatedToRaw(s.server.opts)));
        ReplyIsLegible(s.client, Oack(ValidatedToRaw(s.server.opts)));
        SideStays(s, Step(s, file, e), file);
      }
    case DeliverToClient(i) =>
      if i < |s.log| {
        GetterReads(s.client, s.log[i]);
        ReplyIsLegible(s.client, s.log[i]);
        SideStays(s, Step(s, file, e), file);
      }
    case DeliverAck(n) =>
      AckClear(s, file, n);
    case _ =>
      SideStays(s, Step(s, file, e), file);
  }

  lemma OackIsLegible(opts: Opts)
    requires opts.tsize.Some?
    ensures Legible(Oack(ValidatedToRaw(opts)))
  {
    RawIsGood(opts);
  }

  lemma SideStays(s: Net, s': Net, file: bytes)
    requires ServerSide(s, file) && s'.server == s.server && s'.log == s.log
    requires s'.registered ==> s.registered
    ensures ServerSide(s', file)
  {
    hide SenderOk, LogOk;
  }

  lemma ReplyIsLegible(c: Getter, p: Packet)
    requires Legible(p) && c.blockNum <= WIRE_MAX
    ensures var (c', replies) := GetMessage(c, p);
            c'.blockNum <= WIRE_MAX && forall n :: n in Acked(replies) ==> n <= WIRE_MAX
  {
    hide ValidateOptions;
  }

  lemma AckClear(s: Net, file: bytes, n: nat)
    requires Clear(s, file)
    ensures StepOctets(s, file, DeliverAck(n)) == Step(s, file, DeliverAck(n))
    ensures Clear(Step(s, file, DeliverAck(n)), file)
  {
    hide PacketBytes, HandleTransferAck, LogOk, SenderOk, ParsePacket;
    var s' := Step(s, file, DeliverAck(n));
    AckKeepsServer(s, file, n);
    if n in s.acks && s.registered {
      ServerReads(s.server, Ack(n), file);
      ErrorsAreSmall(s, file, n);
    }
    LogIsLegible(s'.log, file, s.server.opts.blksize);
  }

  /** What a server adds to a log of blocks is blocks and errors with small codes. */
  lemma LogIsLegible(log: seq<Packet>, file: bytes, b: nat)
    requires LogOk(log, file, b)
    requires SmallErrors(log)
    ensures AllLegible(log)
  {
    hide Wire, Block;
    forall i | 0 <= i < |log| ensures Legible(log[i]) {
      BlockNumberingAgrees(i + 1);
    }
  }

  lemma ErrorsAreSmall(s: Net, file: bytes, n: nat)
    requires ServerSide(s, file) && s.registered
    ensures SmallErrors(HandleTransferAck(s.server, file, n).packets)
  {
    hide SendLoop, LogOk;
    var t1 := HandleAck(s.server, n).0;
    if t1.phase.Send? {
      AckedIsOk(s.server, file, n);
      WindowErrors(t1, file);
    }
  }

  lemma WindowErrors(t: Core, file: bytes)
    requires SenderOk(t, file) && t.phase.Send?
    ensures SmallErrors(SendLoop(t, file, 0).1)
  {
    hide SendLoop, Emission, WindowLeft, Wire;
    WindowSent(t, file, 0);
    var b, m := t.opts.blksize, t.totalPackets;
    var ps := SendLoop(t, file, 0).1;
    if WindowLeft(t, file, 0) >= 0 && ps == Emission(file, b, m, WindowLeft(t, file, 0)) {
      EmissionIsData(file, b, m, WindowLeft(t, file, 0));
    } else {
      EmissionIsData(file, b, m, WIRE_MAX - m);
    }
  }

  lemma EmissionIsData(file: bytes, b: nat, made: nat, count: nat)
    ensures |Emission(file, b, made, count)| == count
    ensures forall i :: 0 <= i < count ==> Emission(file, b, made, count)[i].Data?
  {
  }

  /** A step on octets stays clear, so that runs can be told by it. */
  ghost function RunOctets(s: Net, file: bytes, es: seq<Event>): Net
    requires Clear(s, file)
    decreases |es|
  {
    if es == [] then s
    else
      StepClear(s, file, es[0]);
      RunOctets(StepOctets(s, file, es[0]), file, es[1..])
  }

  lemma {:induction false} RunsAgree(s: Net, file: bytes, es: seq<Event>)
    requires Clear(s, file)
    ensures RunOctets(s, file, es) == Run(s, file, es)
    decreases |es|
  {
    hide Clear, Step, StepOctets;
    if es != [] {
      ClearIsLegible(s, file);
      StepClear(s, file, es[0]);
      RunsAgree(Step(s, file, es[0]), file, es[1..]);
    }
  }

  lemma ClearIsLegible(s: Net, file: bytes)
    requires Clear(s, file)
    ensures AllLegible(s.log)
    ensures forall n :: n in s.acks ==> n <= WIRE_MAX
  {
  }

  // ---- From the request on -----------------------------------------------------------------

  /** The network once a read request has begun a transfer: the server's answer is under way. */
  function Opened(t: Core, packets: seq<Packet>, requested: Opts): Net {
    if packets != [] && packets[0].Oack? then Net(t, true, NewGetter(requested), [], {}, 1, 0, 0)
    else Net(t, true, NewGetter(requested), packets, {}, 0, 0, 0)
  }

  /** A `get` from its first octet on, over a network that loses, repeats and reorders
      datagrams: the octets of the RRQ begin a transfer, and in every run of octets from there
      what the client has written is right, exactly when the file is shorter than 65535 of the
      blocks settled on; of a server in strict RFC 1350 mode, within what is safe without an
      OACK. */
  lemma GetOnTheWireSafeIff(
      filename: string, mode: string, requested: Opts, c: Config, active: nat, file: bytes)
    requires Clean(filename) && filename != "" && LegalMode(mode) && active < c.maxTransfers
    requires EndToEnd.Answers(c, requested)
    ensures var request := PacketBytes(Rrq(filename, mode, ValidatedToRaw(Asked(requested, 0))));
            var a := Admit(c, active, request, Target(true, IsFile(file), true, true));
            && a.Some? && a.value.Begin?
            && var s := Opened(a.value.t, a.value.packets, requested);
               && Clear(s, file)
               && ((forall es: seq<Event> :: Safe(RunOctets(s, file, es), file)) <==>
                   if !c.rfc1350 then |file| < WIRE_MAX * Settled(requested.blksize, c.maxBlksize)
                   else if requested.blksize > 512 then |file| <= 512
                   else |file| < 65534 * 512 + (if requested.blksize == 0 then 1 else requested.blksize))
  {
    hide PacketBytes, Admit, LegalMode, Clean, RunOctets, Run, Clear, SendLoop, Start, Opened;
    EndToEnd.GetOpensDownload(filename, mode, requested, c, active, file);
    var opts, options := EndToEnd.Agreeable(c, requested, |file|), !c.rfc1350;
    var s := Start(file, opts, options, requested, options, 1);
    StartIsClear(file, opts, options, requested, options);
    SafeOnOctets(s, file);
    if c.rfc1350 {
      DownloadLimit.WithoutOackSafeIff(file, options, requested);
    } else {
      DownloadLimit.DownloadSafeIff(file, opts, options, requested, options);
    }
  }

  lemma NoOack(log: seq<Packet>, file: bytes, b: nat)
    requires LogOk(log, file, b)
    ensures log != [] ==> !log[0].Oack?
  {
  }

  lemma SafeOnOctets(s: Net, file: bytes)
    requires Clear(s, file)
    ensures (forall es: seq<Event> :: Safe(RunOctets(s, file, es), file)) <==>
            (forall es: seq<Event> :: Safe(Run(s, file, es), file))
  {
    hide RunOctets, Run, Clear, Safe;
    if forall es: seq<Event> :: Safe(RunOctets(s, file, es), file) {
      forall es: seq<Event> ensures Safe(Run(s, file, es), file) {
        RunsAgree(s, file, es);
        assert Safe(RunOctets(s, file, es), file);
      }
    } else {
      var es: seq<Event> :| !Safe(RunOctets(s, file, es), file);
      RunsAgree(s, file, es);
      assert !Safe(Run(s, file, es), file);
    }
  }

  lemma StartIsClear(file: bytes, opts: Opts, wrap: bool, requested: Opts, withOptions: bool)
    requires Served(opts, withOptions) && (withOptions ==> opts.tsize.Some?)
    ensures Clear(Start(file, opts, wrap, requested, withOptions, 1), file)
    ensures var open := DownloadFifo.Open(file, opts, wrap, requested, withOptions);
            Opened(open.server, open.toClient, requested) == Start(file, opts, wrap, requested, withOptions, 1)
  {
    hide SendLoop, LogOk, SenderOk;
    StartInv(file, opts, wrap, requested, withOptions, 1);
    var t := AdvanceSend(InitRRQ(Fresh(true, wrap, opts), withOptions)).0;
    FreshIsOk(file, opts, wrap, withOptions);
    if !withOptions {
      var ps := SendLoop(t, file, 0).1;
      WindowErrors(t, file);
      LogIsLegible(ps, file, opts.blksize);
      NoOack(ps, file, opts.blksize);
    }
  }
}
