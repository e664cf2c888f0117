/** The server object of src/tftp/server.mts: its table of transfers, the admission of
    requests, the routing of packets and the collection of silent transfers.

    What the file system says about a path is a parameter. */
module TftpService {
  import opened Bytes
  import opened Blocks
  import opened Buffers
  import opened Options
  import opened Transfer
  import opened TftpServer
  import opened TftpCodec
  import opened Negotiation

  /** A peer's address and port. */
  type Key = string

  const ACCESS_VIOLATION: nat := 2
  const FILE_NOT_FOUND: nat := 1
  const FILE_ALREADY_EXISTS: nat := 6
  const OPTION_NEGOTIATION: nat := 8

  datatype Stat = IsFile(content: bytes) | NotAFile | NoEntry | NoAccess | OtherError(message: string)

  /** What the file system answers about the requested path. */
  datatype Target = Target(inRoot: bool, stat: Stat, present: bool, parentWritable: bool)

  datatype Config = Config(rfc1350: bool, maxBlksize: nat, maxTransfers: nat, maxRetries: nat, allowWrite: bool)

  /** A request is refused with one ERROR, or begins a transfer. */
  datatype Admission = Refuse(error: Packet) | Begin(t: Core, filesize: nat, packets: seq<Packet>)

  function BeginRead(t: Core, target: Target): Admission {
    match target.stat
    case NotAFile => Refuse(Err(FILE_NOT_FOUND, "Not a file"))
    case NoEntry => Refuse(Err(FILE_NOT_FOUND, "File not found"))
    case NoAccess => Refuse(Err(ACCESS_VIOLATION, "Access denied"))
    case OtherError(m) => Refuse(Err(NOT_DEFINED, m))
    case IsFile(content) =>
      var (t1, r) := AdvanceSend(t.(opts := WithSize(t.opts, |content|)));
      if r.Some? then Begin(t1, |content|, r.value.packets)
      else
        var (t2, ps) := SendLoop(t1, content, 0);
        Begin(t2, |content|, ps)
  }

  function BeginWrite(t: Core, target: Target): Admission {
    if target.present then Refuse(Err(FILE_ALREADY_EXISTS, "File already exists"))
    else if !target.parentWritable then Refuse(Err(ACCESS_VIOLATION, "Cannot write to directory"))
    else
      var (t1, r) := AdvanceSend(t);
      Begin(t1, 0, if r.Some? then r.value.packets else [])
  }

  /** A datagram from a peer without a transfer; None: not even an answer. */
  function Admit(c: Config, active: nat, buf: bytes, target: Target): Option<Admission> {
    if |buf| < OPCODE_LEN then None
    else if ReadU16(buf) != RRQ && ReadU16(buf) != WRQ then Some(Refuse(NO_ACTIVE_TRANSFER))
    else
      match ParsePacket(buf)
      case Malformed(m) => Some(Refuse(Err(ILLEGAL_OPERATION, m)))
      case Unknown => Some(Refuse(Err(ILLEGAL_OPERATION, "Invalid request")))
      case Parsed(p) => Some(AdmitRequest(c, active, p, target))
  }

  function AdmitRequest(c: Config, active: nat, p: Packet, target: Target): Admission {
    if !p.Rrq? && !p.Wrq? then Refuse(Err(ILLEGAL_OPERATION, "Invalid request"))
    else if active >= c.maxTransfers then Refuse(Err(ILLEGAL_OPERATION, "Server busy"))
    else if p.Wrq? && !c.allowWrite then Refuse(Err(ACCESS_VIOLATION, "Write requests not allowed"))
    else if !target.inRoot then Refuse(Err(ACCESS_VIOLATION, "Access violation"))
    else AdmitChecked(c, p, target)
  }

  /** A request that may be served, if its options can be. */
  function AdmitChecked(c: Config, p: Packet, target: Target): Admission
    requires p.Rrq? || p.Wrq?
  {
    var n := Negotiate(p.options, c.rfc1350, c.maxBlksize);
    if n.Refused? then Refuse(Err(OPTION_NEGOTIATION, n.message))
    else
      BeginTransfer(Fresh(p.Rrq?, !c.rfc1350, if n.Accepted? then n.opts else DEFAULT_OPTS), n.Accepted?, target)
  }

  function BeginTransfer(t: Core, hasOptions: bool, target: Target): Admission {
    if t.reading then BeginRead(InitRRQ(t, hasOptions), target) else BeginWrite(InitWRQ(t, hasOptions), target)
  }

  /** A datagram from a peer with a transfer, and what is appended to its file. */
  function Route(t: Core, buf: bytes, file: bytes): (Handled, bytes) {
    if |buf| < OPCODE_LEN then (Handled(t, [], true), [])
    else
      match ParsePacket(buf)
      case Parsed(Ack(n)) => (HandleTransferAck(t, file, n), [])
      case Parsed(Data(n, data)) => HandleTransferData(t, [], n, data)
      case Parsed(Err(_, _)) => (Handled(t.(phase := Done), [], false), [])
      case _ => (Handled(t, [], true), [])
  }

  /** A packet that resets the watchdog of its transfer. */
  predicate Heard(buf: bytes) {
    |buf| >= OPCODE_LEN && ParsePacket(buf).Parsed? && (ParsePacket(buf).p.Ack? || ParsePacket(buf).p.Data?)
  }

  // ---- The table as a value --------------------------------------------------------------

  /** What the server holds for a peer. */
  datatype Peer = Peer(t: Core, watch: Watch)

  type Table = map<Key, Peer>

  /** A datagram from a peer, what the file system says about its file, and the time. */
  datatype Datagram = Datagram(key: Key, buf: bytes, target: Target, now: int)

  /** The table after it, what is answered and what is appended to the peer's file. */
  function OnMessage(c: Config, table: Table, d: Datagram): (Table, seq<Packet>, bytes) {
    if d.key in table then
      var (h, disk) := Route(table[d.key].t, d.buf, FileOf(d.target));
      (if h.registered then table[d.key := Peer(h.t, if Heard(d.buf) then Watch(d.now, 0) else table[d.key].watch)]
       else table - {d.key},
       h.packets, disk)
    else
      match Admit(c, |table|, d.buf, d.target)
      case None => (table, [], [])
      case Some(Refuse(e)) => (table, [e], [])
      case Some(Begin(t, _, packets)) => (table[d.key := Peer(t, Watch(d.now, 0))], packets, [])
  }

  lemma AnswerIs(c: Config, table: Table, d: Datagram)
    ensures d.key in table ==>
              var (h, disk) := Route(table[d.key].t, d.buf, FileOf(d.target));
              OnMessage(c, table, d).1 == h.packets && OnMessage(c, table, d).2 == disk
    ensures d.key !in table ==>
              && OnMessage(c, table, d).2 == []
              && OnMessage(c, table, d).1 == match Admit(c, |table|, d.buf, d.target)
                                             case None => []
                                             case Some(Refuse(e)) => [e]
                                             case Some(Begin(_, _, packets)) => packets
  {
    hide Route, Admit, Heard;
  }

  lemma NextTable(c: Config, table: Table, d: Datagram, next: Table)
    requires next - {d.key} == table - {d.key}
    requires d.key in table ==>
               var h := Route(table[d.key].t, d.buf, FileOf(d.target)).0;
               && (d.key in next <==> h.registered)
               && (h.registered ==> next[d.key] == Peer(h.t, if Heard(d.buf) then Watch(d.now, 0) else table[d.key].watch))
    requires d.key !in table ==>
               match Admit(c, |table|, d.buf, d.target)
               case Some(Begin(t, _, _)) => d.key in next && next[d.key] == Peer(t, Watch(d.now, 0))
               case _ => d.key !in next
    ensures next == OnMessage(c, table, d).0
  {
    hide Route, Admit, Heard;
    SameBut(table, next, d.key);
    SameBut(table, OnMessage(c, table, d).0, d.key);
    SameBut(next, OnMessage(c, table, d).0, d.key);
  }

  /** Two tables that differ at most in one peer. */
  lemma SameBut(a: Table, b: Table, key: Key)
    ensures a - {key} == b - {key} <==> forall k :: k != key ==> (k in a <==> k in b) && (k in a ==> a[k] == b[k])
    ensures a - {key} == b - {key} && (key in a <==> key in b) && (key in a ==> a[key] == b[key]) ==> a == b
  {
    var a', b' := a - {key}, b - {key};
    assert forall k :: k in a' <==> k in a && k != key;
    assert forall k :: k in b' <==> k in b && k != key;
    if forall k :: k != key ==> (k in a <==> k in b) && (k in a ==> a[k] == b[k]) {
      assert a' == b';
    }
    if a' == b' {
      forall k | k != key ensures (k in a <==> k in b) && (k in a ==> a[k] == b[k]) {
        assert k in a' <==> k in b';
        assert k in a' ==> a'[k] == b'[k];
      }
    }
  }

  /** The table after a sweep. */
  function OnSweep(c: Config, table: Table, now: int): Table {
    map k | k in table && SweepPeer(c, table[k], now).1 :: Peer(table[k].t, SweepPeer(c, table[k], now).0)
  }

  function SweepPeer(c: Config, p: Peer, now: int): (Watch, bool) {
    SweepWatch(p.watch, Patience(p.t.opts), c.maxRetries, now)
  }

  lemma Entered<T>(m: map<Key, T>, key: Key, x: T)
    requires key !in m
    ensures m[key := x] - {key} == m && m[key := x].Keys == m.Keys + {key}
  {
  }

  class TFTPServer {
    const config: Config
    var transfers: map<Key, TFTPTransfer>

    ghost function Table(): Table
      reads this, set k | k in transfers :: transfers[k]
    {
      map k | k in transfers :: Peer(transfers[k].Model(), transfers[k].Watchdog())
    }

    /** The table keeps to its limit, and no two peers share a transfer. */
    ghost predicate Valid()
      reads this
    {
      && |transfers| <= config.maxTransfers
      && (forall k :: k in transfers ==> transfers[k].maxRetries == config.maxRetries)
      && forall k, l :: k in transfers && l in transfers && k != l ==> transfers[k] != transfers[l]
    }

    constructor (config: Config)
      ensures Valid() && this.config == config && transfers == map[]
    {
      this.config := config;
      transfers := map[];
    }

    method SendDataBlocks(transfer: TFTPTransfer, file: bytes, now: int) returns (sent: seq<Packet>)
      modifies transfer`phase, transfer`errorCode, transfer`errorMessage, transfer`sendBuffer, transfer`blockNum,
               transfer`totalPackets, transfer`bytesSent, transfer`fileOffset, transfer`lastSeen
      ensures (transfer.Model(), sent) == SendLoop(old(transfer.Model()), file, 0)
      ensures transfer.lastSeen == old(transfer.lastSeen) || transfer.lastSeen == now
    {
      sent := [];
      var sentInWindow, more := 0, true;
      ghost var whole := SendLoop(transfer.Model(), file, 0);
      assert [] + whole.1 == whole.1;
      while more && (transfer.phase.Send? || transfer.phase.SendLast?)
        invariant whole == After(sent, if more then SendLoop(transfer.Model(), file, sentInWindow)
                                       else (transfer.Model(), []))
        invariant transfer.lastSeen == old(transfer.lastSeen) || transfer.lastSeen == now
        decreases more, if transfer.phase.Send? then 1 else 0, |file| - transfer.fileOffset
      {
        ghost var before, model := sent, transfer.Model();
        var packets;
        packets, more := SendBlock(transfer, file, sentInWindow, now);
        sent := sent + packets;
        sentInWindow := sentInWindow + 1;
        SendLoopTurns(model, file, sentInWindow - 1);
        AfterTwice(before, packets, if more then SendLoop(transfer.Model(), file, sentInWindow) else (transfer.Model(), []));
      }
      assert sent + [] == sent;
    }

    /** One turn of that loop; `more` says whether to go on. */
    method SendBlock(transfer: TFTPTransfer, file: bytes, sentInWindow: nat, now: int)
      returns (packets: seq<Packet>, more: bool)
      requires transfer.phase.Send? || transfer.phase.SendLast?
      modifies transfer`phase, transfer`errorCode, transfer`errorMessage, transfer`sendBuffer, transfer`blockNum,
               transfer`totalPackets, transfer`bytesSent, transfer`fileOffset, transfer`lastSeen
      ensures (transfer.Model(), packets, more) == LoopTurn(old(transfer.Model()), file, sentInWindow)
      ensures transfer.lastSeen == old(transfer.lastSeen) || transfer.lastSeen == now
    {
      hide ReadAt, ProduceData;
      packets := [];
      var chunk := ReadAt(file, transfer.fileOffset, transfer.opts.blksize);
      transfer.fileOffset := transfer.fileOffset + |chunk|;
      if |chunk| == 0 && transfer.phase.Send? {
        transfer.phase := SendLast;
        return [], false;
      }
      var p := transfer.ProduceDataPacket(chunk, |chunk| < transfer.opts.blksize);
      if p.None? {
        transfer.Fail(NOT_DEFINED, OUT_OF_RANGE);
        var r := transfer.Advance(now);
        return r.value.packets, false;
      }
      transfer.bytesSent := transfer.bytesSent + |chunk|;
      packets := [p.value];
      more := !transfer.phase.SendLast? && sentInWindow + 1 < transfer.opts.windowsize;
    }

    method HandleTransferACK(key: Key, number: nat, file: bytes, now: int) returns (replies: seq<Packet>)
      requires Valid() && key in transfers
      modifies this`transfers, transfers[key]
      ensures Valid()
      ensures var h := HandleTransferAck(old(transfers[key].Model()), file, number);
              && old(transfers)[key].Model() == h.t && replies == h.packets
              && transfers == if h.registered then old(transfers) else old(transfers) - {key}
      ensures old(transfers)[key].Watchdog() == Watch(now, 0)
    {
      var transfer := transfers[key];
      var result := transfer.HandleACK(number, now);
      replies := [];
      if transfer.phase.Done? {
        RemoveTransfer(key);
        return;
      }
      if transfer.phase.Error? {
        replies := if result.Some? then result.value.packets else [];
        RemoveTransfer(key);
        return;
      }
      if transfer.phase.Send? {
        replies := SendDataBlocks(transfer, file, now);
      }
    }

    method HandleTransferDATA(key: Key, number: nat, data: bytes, now: int)
      returns (replies: seq<Packet>, appended: bytes)
      requires Valid() && key in transfers
      modifies this`transfers, transfers[key]
      ensures Valid()
      ensures var (h, disk) := HandleTransferData(old(transfers[key].Model()), [], number, data);
              && old(transfers)[key].Model() == h.t && replies == h.packets && appended == disk
              && transfers == if h.registered then old(transfers) else old(transfers) - {key}
      ensures old(transfers)[key].Watchdog() == Watch(now, 0)
    {
      var transfer := transfers[key];
      var result := transfer.HandleDATA(number, data, now);
      appended := [];
      if |transfer.recvData| > 0 {
        appended := appended + transfer.recvData;
      }
      replies := if result.Some? then result.value.packets else [];
      if transfer.phase.Done? {
        RemoveTransfer(key);
      }
    }

    method RemoveTransfer(key: Key)
      requires Valid() && key in transfers
      modifies this`transfers
      ensures Valid() && transfers == old(transfers) - {key}
    {
      transfers := transfers - {key};
    }

    /** One datagram, from any peer.  It is answered as `Admit` or `Route` say, the table
        keeps to its limit, and no other peer's transfer is touched. */
    method HandleMessage(key: Key, buf: bytes, target: Target, now: int)
      returns (replies: seq<Packet>, appended: bytes)
      requires Valid()
      modifies this`transfers, if key in transfers then {transfers[key]} else {}
      ensures Valid()
      ensures OthersStay(key)
      ensures transfers.Keys - {key} == old(transfers).Keys - {key}
      ensures key in old(transfers) ==>
                var (h, disk) := Route(old(transfers[key].Model()), buf, FileOf(target));
                && old(transfers)[key].Model() == h.t && replies == h.packets && appended == disk
                && transfers == (if h.registered then old(transfers) else old(transfers) - {key})
                && old(transfers)[key].Watchdog() == if Heard(buf) then Watch(now, 0) else old(transfers[key].Watchdog())
      ensures key !in old(transfers) ==>
                var a := Admit(config, |old(transfers)|, buf, target);
                && appended == []
                && (a.None? ==> replies == [] && transfers == old(transfers))
                && (a.Some? ==> Answered(a.value, key, old(transfers), replies, now))
    {
      hide AdmitRequest, ParsePacket, HandleTransferAck, HandleTransferData;
      replies, appended := [], [];
      if |buf| < OPCODE_LEN {
        return;
      }
      if key in transfers {
        replies, appended := HandleExisting(key, buf, FileOf(target), now);
        return;
      }
      var opcode := ReadU16(buf);
      if opcode != RRQ && opcode != WRQ {
        return [NO_ACTIVE_TRANSFER], [];
      }
      replies := HandleNewRequest(key, buf, target, now);
    }

    /** The socket's listener: what a datagram does to the table as a value. */
    method OnDatagram(d: Datagram) returns (replies: seq<Packet>, appended: bytes)
      requires Valid()
      modifies this`transfers, if d.key in transfers then {transfers[d.key]} else {}
      ensures Valid()
      ensures (Table(), replies, appended) == OnMessage(config, old(Table()), d)
      ensures forall k :: k in transfers ==> fresh(transfers[k]) || (k in old(transfers) && transfers[k] == old(transfers)[k])
    {
      hide Admit, Route, Heard, OnMessage, Table;
      replies, appended := HandleMessage(d.key, d.buf, d.target, d.now);
      TableFollows(d);
      OldEntry(d.key);
      AnswerIs(config, old(Table()), d);
    }

    lemma TableEntry(key: Key)
      ensures |Table()| == |transfers| && (key in Table() <==> key in transfers)
      ensures key in transfers ==> Table()[key] == Peer(transfers[key].Model(), transfers[key].Watchdog())
    {
      assert Table().Keys == transfers.Keys;
    }

    twostate predicate OthersStay(key: Key)
      reads this, set k | k in transfers :: transfers[k]
    {
      forall k :: k in old(transfers) && k != key ==>
        && k in transfers && transfers[k] == old(transfers)[k]
        && transfers[k].Model() == old(transfers[k].Model()) && transfers[k].Watchdog() == old(transfers[k].Watchdog())
    }

    /** What a datagram does to the objects, said of the table. */
    twostate lemma TableFollows(d: Datagram)
      requires OthersStay(d.key) && transfers.Keys - {d.key} == old(transfers).Keys - {d.key}
      requires d.key in old(transfers) ==>
                 var h := Route(old(transfers[d.key].Model()), d.buf, FileOf(d.target)).0;
                 && old(transfers)[d.key].Model() == h.t
                 && transfers == (if h.registered then old(transfers) else old(transfers) - {d.key})
                 && old(transfers)[d.key].Watchdog()
                    == if Heard(d.buf) then Watch(d.now, 0) else old(transfers[d.key].Watchdog())
      requires d.key !in old(transfers) ==>
                 match Admit(config, |old(transfers)|, d.buf, d.target)
                 case Some(Begin(t, _, _)) =>
                   d.key in transfers && transfers[d.key].Model() == t && transfers[d.key].Watchdog() == Watch(d.now, 0)
                 case _ => transfers == old(transfers)
      ensures Table() == OnMessage(config, old(Table()), d).0
    {
      hide Route, Admit, Heard, OnMessage, Table;
      TableEntry(d.key);
      OldEntry(d.key);
      OthersInTable(d.key);
      NextTable(config, old(Table()), d, Table());
    }

    twostate lemma OldEntry(key: Key)
      ensures |old(Table())| == |old(transfers)| && (key in old(Table()) <==> key in old(transfers))
      ensures key in old(transfers) ==>
                old(Table())[key] == Peer(old(transfers[key].Model()), old(transfers[key].Watchdog()))
    {
      assert old(Table()).Keys == old(transfers).Keys;
    }

    twostate lemma OthersInTable(key: Key)
      requires OthersStay(key) && transfers.Keys - {key} == old(transfers).Keys - {key}
      ensures Table() - {key} == old(Table()) - {key}
    {
      var t, t' := old(Table()) - {key}, Table() - {key};
      assert t.Keys == old(transfers).Keys - {key} && t'.Keys == transfers.Keys - {key};
      forall k | k in t ensures t'[k] == t[k] {
      }
    }

    /** A request refused leaves the table alone; one admitted has its own new transfer. */
    twostate predicate Answered(a: Admission, key: Key, was: map<Key, TFTPTransfer>, replies: seq<Packet>, now: int)
      reads this, if key in transfers then {transfers[key]} else {}
    {
      match a
      case Refuse(e) => replies == [e] && transfers == was
      case Begin(t, filesize, packets) =>
        && replies == packets && transfers.Keys == was.Keys + {key} && fresh(transfers[key])
        && (forall k :: k in was && k != key ==> k in transfers && transfers[k] == was[k])
        && transfers[key].Model() == t && transfers[key].filesize == filesize
        && transfers[key].Watchdog() == Watch(now, 0) && transfers[key].maxRetries == config.maxRetries
    }

    method HandleExisting(key: Key, buf: bytes, file: bytes, now: int) returns (replies: seq<Packet>, appended: bytes)
      requires Valid() && key in transfers
      modifies this`transfers, transfers[key]
      ensures Valid()
      ensures var (h, disk) := Route(old(transfers[key].Model()), buf, file);
              && old(transfers)[key].Model() == h.t && replies == h.packets && appended == disk
              && transfers == if h.registered then old(transfers) else old(transfers) - {key}
      ensures old(transfers)[key].Watchdog() == if Heard(buf) then Watch(now, 0) else old(transfers[key].Watchdog())
    {
      hide HandleTransferAck, HandleTransferData;
      replies, appended := [], [];
      if |buf| < OPCODE_LEN {
        return;
      }
      match ParsePacket(buf) {
        case Parsed(Ack(n)) =>
          replies := HandleTransferACK(key, n, file, now);
        case Parsed(Data(n, data)) =>
          replies, appended := HandleTransferDATA(key, n, data, now);
        case Parsed(Err(_, _)) =>
          transfers[key].phase := Done;
          RemoveTransfer(key);
        case _ =>
      }
    }

    method HandleNewRequest(key: Key, buf: bytes, target: Target, now: int) returns (replies: seq<Packet>)
      requires Valid() && key !in transfers && |buf| >= OPCODE_LEN && (ReadU16(buf) == RRQ || ReadU16(buf) == WRQ)
      modifies this`transfers
      ensures Valid()
      ensures var a := Admit(config, |old(transfers)|, buf, target);
              a.Some? && Answered(a.value, key, old(transfers), replies, now)
    {
      hide AdmitRequest;
      match ParsePacket(buf) {
        case Malformed(m) =>
          replies := [Err(ILLEGAL_OPERATION, m)];
        case Unknown =>
          replies := [Err(ILLEGAL_OPERATION, "Invalid request")];
        case Parsed(p) =>
          replies := AcceptRequest(key, p, target, now);
      }
    }

    /** The checks in their order. */
    method AcceptRequest(key: Key, p: Packet, target: Target, now: int) returns (replies: seq<Packet>)
      requires Valid() && key !in transfers
      modifies this`transfers
      ensures Valid()
      ensures Answered(AdmitRequest(config, |old(transfers)|, p, target), key, old(transfers), replies, now)
    {
      hide AdmitChecked;
      if !p.Rrq? && !p.Wrq? {
        return [Err(ILLEGAL_OPERATION, "Invalid request")];
      }
      if |transfers| >= config.maxTransfers {
        return [Err(ILLEGAL_OPERATION, "Server busy")];
      }
      if p.Wrq? && !config.allowWrite {
        return [Err(ACCESS_VIOLATION, "Write requests not allowed")];
      }
      if !target.inRoot {
        return [Err(ACCESS_VIOLATION, "Access violation")];
      }
      replies := OpenTransfer(key, p, target, now);
    }

    /** A request that has passed them is refused for its options, or served. */
    method OpenTransfer(key: Key, p: Packet, target: Target, now: int) returns (replies: seq<Packet>)
      requires Valid() && key !in transfers && |transfers| < config.maxTransfers && (p.Rrq? || p.Wrq?)
      modifies this`transfers
      ensures Valid() && Answered(AdmitChecked(config, p, target), key, old(transfers), replies, now)
    {
      hide Negotiate, BeginTransfer, Fresh, Table;
      var transfer, hasOptions, refusal := NewTransfer(p, now);
      if refusal.Some? {
        return [Err(OPTION_NEGOTIATION, refusal.value)];
      }
      ghost var t, was := transfer.Model(), transfers;
      assert AdmitChecked(config, p, target) == BeginTransfer(t, hasOptions, target);
      hide AdmitChecked;
      Entered(was, key, transfer);
      replies := Register(key, transfer, hasOptions, target, now);
    }

    /** Its transfer, with the options as negotiated. */
    method NewTransfer(p: Packet, now: int) returns (transfer: TFTPTransfer, hasOptions: bool, refusal: Option<string>)
      requires p.Rrq? || p.Wrq?
      ensures fresh(transfer) && transfer.filesize == 0 && transfer.Watchdog() == Watch(now, 0)
      ensures transfer.maxRetries == config.maxRetries && transfer.reading == p.Rrq?
      ensures var n := Negotiate(p.options, config.rfc1350, config.maxBlksize);
              && refusal == (if n.Refused? then Some(n.message) else None)
              && (!n.Refused? ==>
                    && hasOptions == n.Accepted?
                    && transfer.Model() == Fresh(p.Rrq?, !config.rfc1350, if n.Accepted? then n.opts else DEFAULT_OPTS))
    {
      hide ValidateOptions, Capped;
      refusal := None;
      transfer := new TFTPTransfer(p.Rrq?, !config.rfc1350, config.maxRetries, DEFAULT_OPTS, now);
      hasOptions := p.options != [] && !config.rfc1350;
      if hasOptions {
        match ValidateOptions(Capped(p.options, config.maxBlksize)) {
          case Invalid(message) =>
            refusal := Some(message);
          case Valid(opts) =>
            transfer.SetOptions(opts);
        }
      }
    }

    /** It is registered first, then answered. */
    method Register(key: Key, transfer: TFTPTransfer, hasOptions: bool, target: Target, now: int)
      returns (replies: seq<Packet>)
      requires Valid() && key !in transfers && |transfers| < config.maxTransfers
      requires transfer.filesize == 0 && transfer.Watchdog() == Watch(now, 0) && transfer.maxRetries == config.maxRetries
      requires forall k :: k in transfers ==> transfers[k] != transfer
      modifies this`transfers, transfer
      ensures Valid() && transfer.Watchdog() == Watch(now, 0)
      ensures Begun(BeginTransfer(old(transfer.Model()), hasOptions, target), key, old(transfers)[key := transfer], replies)
    {
      hide BeginRead, BeginWrite;
      transfers := transfers[key := transfer];
      ghost var was := transfers;
      if transfer.reading {
        transfer.InitRead(hasOptions);
        replies := HandleRRQ(key, target, now);
      } else {
        transfer.InitWrite(hasOptions);
        replies := HandleWRQ(key, target, now);
      }
    }

    /** The file is there: its size goes into the options, and the OACK or the first window
        to the client.  It is not: an ERROR, and the transfer is cleaned up. */
    method HandleRRQ(key: Key, target: Target, now: int) returns (replies: seq<Packet>)
      requires Valid() && key in transfers && transfers[key].filesize == 0
      modifies this`transfers, transfers[key]
      ensures Valid() && Begun(BeginRead(old(transfers[key].Model()), target), key, old(transfers), replies)
      ensures old(transfers)[key].lastSeen == old(transfers[key].lastSeen) || old(transfers)[key].lastSeen == now
      ensures old(transfers)[key].retries == old(transfers[key].retries)
    {
      hide SendLoop, AdvanceSend;
      var transfer := transfers[key];
      match target.stat {
        case NotAFile =>
          RemoveTransfer(key);
          return [Err(FILE_NOT_FOUND, "Not a file")];
        case NoEntry =>
          RemoveTransfer(key);
          return [Err(FILE_NOT_FOUND, "File not found")];
        case NoAccess =>
          RemoveTransfer(key);
          return [Err(ACCESS_VIOLATION, "Access denied")];
        case OtherError(m) =>
          RemoveTransfer(key);
          return [Err(NOT_DEFINED, m)];
        case IsFile(content) =>
          replies := ServeFile(transfer, content, now);
      }
    }

    method ServeFile(transfer: TFTPTransfer, content: bytes, now: int) returns (replies: seq<Packet>)
      requires transfer.filesize == 0
      modifies transfer
      ensures Opened(old(transfer.Model()), content, transfer.Model(), replies) && transfer.filesize == |content|
      ensures (transfer.lastSeen == old(transfer.lastSeen) || transfer.lastSeen == now)
              && transfer.retries == old(transfer.retries)
    {
      hide SendLoop, AdvanceSend;
      transfer.filesize := |content|;
      if transfer.opts.tsize == Some(0) {
        transfer.SetOptions(transfer.opts);
      }
      var result := transfer.Advance(now);
      if result.Some? {
        replies := result.value.packets;
      } else {
        replies := SendDataBlocks(transfer, content, now);
      }
    }

    ghost predicate Opened(t: Core, content: bytes, t': Core, replies: seq<Packet>) {
      BeginRead(t, Target(true, IsFile(content), true, true)) == Begin(t', |content|, replies)
    }

    /** The file is not there and can be made: the OACK or ACK(0) to the client. */
    method HandleWRQ(key: Key, target: Target, now: int) returns (replies: seq<Packet>)
      requires Valid() && key in transfers && transfers[key].filesize == 0
      modifies this`transfers, {transfers[key]}`phase, {transfers[key]}`lastSeen
      ensures Valid() && Begun(BeginWrite(old(transfers[key].Model()), target), key, old(transfers), replies)
      ensures old(transfers)[key].lastSeen == old(transfers[key].lastSeen) || old(transfers)[key].lastSeen == now
    {
      if target.present {
        RemoveTransfer(key);
        return [Err(FILE_ALREADY_EXISTS, "File already exists")];
      }
      if !target.parentWritable {
        RemoveTransfer(key);
        return [Err(ACCESS_VIOLATION, "Cannot write to directory")];
      }
      var result := transfers[key].Advance(now);
      replies := if result.Some? then result.value.packets else [];
    }

    ghost predicate Begun(a: Admission, key: Key, was: map<Key, TFTPTransfer>, replies: seq<Packet>)
      requires key in was
      reads this, was[key]
    {
      match a
      case Refuse(e) => replies == [e] && transfers == was - {key}
      case Begin(t, filesize, packets) =>
        replies == packets && transfers == was && was[key].Model() == t && was[key].filesize == filesize
    }

    /** Counts a retry for every transfer that has been silent too long, and drops those
        that have used theirs up; nothing else changes. */
    method CollectGarbage(now: int)
      requires Valid()
      modifies this`transfers, (set k | k in transfers :: transfers[k])`retries
      ensures Valid()
      ensures forall k :: k in old(transfers) ==>
                (old(transfers)[k].Watchdog(), k in transfers) ==
                SweepWatch(old(transfers[k].Watchdog()), old(transfers[k].TimeoutMs()), old(transfers)[k].maxRetries, now)
      ensures forall k :: k in transfers ==> k in old(transfers) && transfers[k] == old(transfers)[k]
    {
      hide SweepWatch, Patience, Table;
      var keys := transfers.Keys;
      ghost var was := transfers;
      while keys != {}
        invariant Valid() && keys <= transfers.Keys <= was.Keys
        invariant forall k :: k in transfers ==> transfers[k] == was[k]
        invariant forall k :: k in keys ==> was[k].Watchdog() == old(transfers[k].Watchdog())
        invariant forall k :: k in was && k !in keys ==>
                    (was[k].Watchdog(), k in transfers) ==
                    SweepWatch(old(transfers[k].Watchdog()), old(transfers[k].TimeoutMs()), was[k].maxRetries, now)
        decreases keys
      {
        var k :| k in keys;
        keys := keys - {k};
        Sweep(k, now);
      }
    }

    /** The timer: what a sweep does to the table as a value. */
    method OnTimer(now: int)
      requires Valid()
      modifies this`transfers, (set k | k in transfers :: transfers[k])`retries
      ensures Valid() && Table() == OnSweep(config, old(Table()), now)
      ensures forall k :: k in transfers ==> k in old(transfers) && transfers[k] == old(transfers)[k]
    {
      hide SweepWatch, Table, OnSweep;
      CollectGarbage(now);
      SweptTable(now);
    }

    twostate lemma SweptTable(now: int)
      requires forall k :: k in old(transfers) ==> old(transfers)[k].maxRetries == config.maxRetries
      requires forall k :: k in transfers ==> k in old(transfers) && transfers[k] == old(transfers)[k]
      requires forall k :: k in old(transfers) ==> old(transfers)[k].Model() == old(transfers[k].Model())
      requires forall k :: k in old(transfers) ==>
                 (old(transfers)[k].Watchdog(), k in transfers) ==
                 SweepWatch(old(transfers[k].Watchdog()), old(transfers[k].TimeoutMs()), old(transfers)[k].maxRetries, now)
      ensures Table() == OnSweep(config, old(Table()), now)
    {
      hide SweepWatch;
      var t := old(Table());
      forall k | k in old(transfers)
        ensures SweepPeer(config, t[k], now) == (old(transfers)[k].Watchdog(), k in transfers)
        ensures t[k].t == old(transfers)[k].Model()
      {
      }
    }

    method Sweep(k: Key, now: int)
      requires Valid() && k in transfers
      modifies this`transfers, {transfers[k]}`retries
      ensures Valid() && transfers == if k in transfers then old(transfers) else old(transfers) - {k}
      ensures (old(transfers)[k].Watchdog(), k in transfers) ==
              SweepWatch(old(transfers[k].Watchdog()), old(transfers[k].TimeoutMs()), old(transfers)[k].maxRetries, now)
    {
      var t := transfers[k];
      if t.IsTimedOut(now) {
        var again := t.IncrementRetry();
        if !again {
          transfers := transfers - {k};
        }
      }
    }
  }

  /** One sweep over a transfer: its watchdog, and whether it stays. */
  function SweepWatch(w: Watch, timeoutMs: nat, maxRetries: nat, now: int): (Watch, bool) {
    if now - w.lastSeen > timeoutMs * (w.retries + 1) then (Watch(w.lastSeen, w.retries + 1), w.retries < maxRetries)
    else (w, true)
  }

  // ---- Silent transfers ------------------------------------------------------------------

  /** What happens to a transfer's watchdog: it is heard of, or the table is swept. */
  datatype Happening = HeardOf(now: int) | Swept(now: int)

  /** The watchdog afterwards; None: the transfer has been dropped. */
  function WatchStep(w: Watch, timeoutMs: nat, maxRetries: nat, h: Happening): Option<Watch> {
    match h
    case HeardOf(now) => Some(Watch(now, 0))
    case Swept(now) =>
      var (w', stays) := SweepWatch(w, timeoutMs, maxRetries, now);
      if stays then Some(w') else None
  }

  function WatchRun(w: Watch, timeoutMs: nat, maxRetries: nat, hs: seq<Happening>): Option<Watch>
    decreases |hs|
  {
    if hs == [] then Some(w)
    else
      var w' := WatchStep(w, timeoutMs, maxRetries, hs[0]);
      if w'.None? then None else WatchRun(w'.value, timeoutMs, maxRetries, hs[1..])
  }

  /** No sweep comes more than maxRetries + 1 timeouts after the peer was last heard of. */
  predicate AlwaysHeard(lastSeen: int, timeoutMs: nat, maxRetries: nat, hs: seq<Happening>)
    decreases |hs|
  {
    hs == [] ||
    (if hs[0].HeardOf? then AlwaysHeard(hs[0].now, timeoutMs, maxRetries, hs[1..])
     else hs[0].now - lastSeen <= timeoutMs * (maxRetries + 1) && AlwaysHeard(lastSeen, timeoutMs, maxRetries, hs[1..]))
  }

  /** In any run of packets and sweeps, however often the sweeps come, a transfer stays as
      long as its peer is heard of within maxRetries + 1 timeouts. */
  lemma {:induction false} NotDroppedEarly(w: Watch, timeoutMs: nat, maxRetries: nat, hs: seq<Happening>)
    requires w.retries <= maxRetries && AlwaysHeard(w.lastSeen, timeoutMs, maxRetries, hs)
    ensures WatchRun(w, timeoutMs, maxRetries, hs).Some?
    decreases |hs|
  {
    if hs != [] {
      if hs[0].Swept? && w.retries == maxRetries {
        assert !(hs[0].now - w.lastSeen > timeoutMs * (w.retries + 1));
      }
      NotDroppedEarly(WatchStep(w, timeoutMs, maxRetries, hs[0]).value, timeoutMs, maxRetries, hs[1..]);
    }
  }

  /** How many of the sweeps come after all of a transfer's timeouts. */
  function LateSweeps(lastSeen: int, limit: nat, sweeps: seq<int>): nat
    decreases |sweeps|
  {
    if sweeps == [] then 0
    else (if sweeps[0] - lastSeen > limit then 1 else 0) + LateSweeps(lastSeen, limit, sweeps[1..])
  }

  function Sweeps(times: seq<int>): seq<Happening> {
    seq(|times|, i requires 0 <= i < |times| => Swept(times[i]))
  }

  /** When the peer is not heard of any more, maxRetries + 1 sweeps after that time are
      enough to drop its transfer, however many came before. */
  lemma {:induction false} DroppedInTime(w: Watch, timeoutMs: nat, maxRetries: nat, sweeps: seq<int>)
    requires w.retries <= maxRetries
    requires LateSweeps(w.lastSeen, timeoutMs * (maxRetries + 1), sweeps) >= maxRetries + 1 - w.retries
    ensures WatchRun(w, timeoutMs, maxRetries, Sweeps(sweeps)).None?
    decreases |sweeps|
  {
    var late := sweeps[0] - w.lastSeen > timeoutMs * (maxRetries + 1);
    MulMono(w.retries + 1, maxRetries + 1, timeoutMs);
    assert late ==> sweeps[0] - w.lastSeen > timeoutMs * (w.retries + 1);
    assert Sweeps(sweeps)[1..] == Sweeps(sweeps[1..]) && Sweeps(sweeps)[0] == Swept(sweeps[0]);
    var next := WatchStep(w, timeoutMs, maxRetries, Swept(sweeps[0]));
    if next.Some? {
      DroppedInTime(next.value, timeoutMs, maxRetries, sweeps[1..]);
    }
  }

  function FileOf(target: Target): bytes {
    if target.stat.IsFile? then target.stat.content else []
  }

  /** One turn of SendLoop: the transfer, the packets, and whether to go on. */
  function LoopTurn(t: Core, file: bytes, sent: nat): (Core, seq<Packet>, bool) {
    var chunk := ReadAt(file, t.fileOffset, t.opts.blksize);
    var t1 := t.(fileOffset := t.fileOffset + |chunk|);
    if |chunk| == 0 && t.phase.Send? then (t1.(phase := SendLast), [], false)
    else
      var (t2, p) := ProduceData(t1, chunk);
      if p.None? then
        var (t3, r) := AdvanceError(SetError(t2, NOT_DEFINED, OUT_OF_RANGE));
        (t3, r.packets, false)
      else
        var t3 := t2.(bytesSent := t2.bytesSent + |chunk|);
        (t3, [p.value], !t3.phase.SendLast? && sent + 1 < t.opts.windowsize)
  }

  lemma SendLoopTurns(t: Core, file: bytes, sent: nat)
    requires t.phase.Send? || t.phase.SendLast?
    ensures var (t', ps, more) := LoopTurn(t, file, sent);
            && SendLoop(t, file, sent) == After(ps, if more then SendLoop(t', file, sent + 1) else (t', []))
            && (more ==> t.phase.Send? && t'.phase.Send? && |file| - t'.fileOffset < |file| - t.fileOffset
                         && t.fileOffset < |file|)
  {
    var r := LoopTurn(t, file, sent);
    assert r.1 + [] == r.1;
  }

  function After(ps: seq<Packet>, r: (Core, seq<Packet>)): (Core, seq<Packet>) {
    (r.0, ps + r.1)
  }

  lemma AfterTwice(ps: seq<Packet>, qs: seq<Packet>, r: (Core, seq<Packet>))
    ensures After(ps, After(qs, r)) == After(ps + qs, r)
  {
    assert ps + (qs + r.1) == ps + qs + r.1;
  }
}
