/** The TFTP client: `get` and `put` of src/tftp/client.mts.

    The variables that the closures of `get` and `put` share are the fields of a class; a
    message handler or the timer is one atomic step.  Local files are octet sequences. */
module TftpClient {
  import opened Bytes
  import opened Blocks
  import opened Options
  import opened Transfer
  import opened Emissions
  import Buffers
  import TftpCodec

  /** The promise that get or put returned; once settled, the listener is gone. */
  datatype Status = Running | Resolved | Rejected

  // ---- get -----------------------------------------------------------------------------

  datatype Getter = Getter(
    status: Status,
    requested: Opts,
    validated: Option<Opts>,
    isOpen: bool,
    file: bytes,
    blockNum: nat,
    bytesReceived: nat,
    packetsInWindow: nat)

  function NewGetter(requested: Opts): Getter {
    Getter(Running, requested, None, false, [], 0, 0, 0)
  }

  function WindowSize(validated: Option<Opts>): nat {
    if validated.Some? then validated.value.windowsize else DEFAULT_WINDOW_SIZE
  }

  function BlockSize(validated: Option<Opts>): nat {
    if validated.Some? then validated.value.blksize else DEFAULT_BLOCK_SIZE
  }

  /** The options to go by when the server sends no OACK: those asked for, not RFC 1350's. */
  function WithoutOack(requested: Opts): Opts {
    Opts(requested.blksize, requested.windowsize, None, None)
  }

  /** An OACK opens, and truncates, the local file. */
  function GetOack(c: Getter, options: RawOptions): (Getter, seq<Packet>) {
    match ValidateOptions(options)
    case Invalid(_) => (c.(status := Rejected), [])
    case Valid(opts) => (c.(validated := Some(opts), isOpen := true, file := []), [Ack(0)])
  }

  function OpenOnData(c: Getter): Getter {
    if c.isOpen then c else c.(validated := Some(WithoutOack(c.requested)), isOpen := true, file := [])
  }

  function GetData(c0: Getter, block: nat, data: bytes): (Getter, seq<Packet>) {
    var c := OpenOnData(c0);
    if block != ClientExpected(c.blockNum) then
      (c, if block == c.blockNum then [Ack(c.blockNum)] else [])
    else
      var isLast := |data| < BlockSize(c.validated);
      var full := isLast || c.packetsInWindow + 1 >= WindowSize(c.validated);
      (c.(file := c.file + data,
          bytesReceived := c.bytesReceived + |data|,
          blockNum := block,
          packetsInWindow := if full then 0 else c.packetsInWindow + 1,
          status := if isLast then Resolved else c.status),
       if full then [Ack(block)] else [])
  }

  function GetMessage(c: Getter, p: Packet): (Getter, seq<Packet>) {
    if !c.status.Running? then (c, [])
    else
      match p
      case Oack(options) => GetOack(c, options)
      case Err(_, _) => (c.(status := Rejected), [])
      case Data(block, data) => GetData(c, block, data)
      case _ => (c, [])
  }

  /** A datagram from the server: what cannot be parsed ends the transfer, and what is none
      of the client's business is ignored. */
  function GetDatagram(c: Getter, buf: bytes): (Getter, seq<Packet>) {
    if !c.status.Running? || |buf| < TftpCodec.OPCODE_LEN then (c, [])
    else if Buffers.ReadU16(buf) !in {TftpCodec.OACK, TftpCodec.ERROR, TftpCodec.DATA} then (c, [])
    else
      match TftpCodec.ParsePacket(buf)
      case Parsed(p) => GetMessage(c, p)
      case _ => (c.(status := Rejected), [])
  }

  class GetTransfer {
    const requested: Opts
    const maxRetries: nat
    var status: Status
    var validated: Option<Opts>
    var isOpen: bool
    var file: bytes
    var blockNum: nat
    var bytesReceived: nat
    var packetsInWindow: nat
    var retries: nat
    var lastPacket: Packet
    var serverPort: nat

    ghost function Model(): Getter
      reads this
    {
      Getter(status, requested, validated, isOpen, file, blockNum, bytesReceived, packetsInWindow)
    }

    constructor (requested: Opts, maxRetries: nat, request: Packet)
      ensures Model() == NewGetter(requested)
      ensures this.maxRetries == maxRetries && retries == 0 && lastPacket == request && serverPort == 0
    {
      this.requested, this.maxRetries := requested, maxRetries;
      status, validated, isOpen, file := Running, None, false, [];
      blockNum, bytesReceived, packetsInWindow := 0, 0, 0;
      retries, lastPacket, serverPort := 0, request, 0;
    }

    /** The first datagram of the server settles its port; one from another port is answered
        with an ERROR there (`stray`) and changes nothing, and other hosts are not heard. */
    method OnDatagram(buf: bytes, fromHost: bool, port: nat) returns (replies: seq<Packet>, stray: bool)
      requires 0 < port
      modifies this
      ensures stray <==> old(status).Running? && fromHost && old(serverPort) != 0 && port != old(serverPort)
      ensures !old(status).Running? || !fromHost || stray ==>
                replies == [] && Model() == old(Model()) && serverPort == old(serverPort)
                && retries == old(retries) && lastPacket == old(lastPacket)
      ensures old(status).Running? && fromHost && !stray ==>
                && (Model(), replies) == GetDatagram(old(Model()), buf) && serverPort == port
                && retries == (if |buf| < TftpCodec.OPCODE_LEN then old(retries) else 0)
                && lastPacket == if replies == [] then old(lastPacket) else replies[0]
    {
      replies, stray := [], false;
      if !status.Running? || !fromHost {
        return;
      }
      if serverPort == 0 {
        serverPort := port;
      } else if port != serverPort {
        return [], true;
      }
      if |buf| < TftpCodec.OPCODE_LEN {
        return;
      }
      var opcode := Buffers.ReadU16(buf);
      retries := 0;
      if opcode == TftpCodec.OACK || opcode == TftpCodec.ERROR || opcode == TftpCodec.DATA {
        match TftpCodec.ParsePacket(buf) {
          case Parsed(p) =>
            replies := OnMessage(p);
          case _ =>
            status := Rejected;
        }
      }
    }

    /** The handler sends at most one packet, and remembers it for the timer. */
    method OnMessage(p: Packet) returns (replies: seq<Packet>)
      modifies this`status, this`validated, this`isOpen, this`file, this`blockNum, this`bytesReceived,
               this`packetsInWindow, this`retries, this`lastPacket
      ensures (Model(), replies) == GetMessage(old(Model()), p)
      ensures |replies| <= 1
      ensures lastPacket == if replies == [] then old(lastPacket) else replies[0]
      ensures retries == if old(status).Running? then 0 else old(retries)
    {
      replies := [];
      if !status.Running? {
        return;
      }
      retries := 0;
      match p {
        case Oack(options) =>
          match ValidateOptions(options) {
            case Invalid(_) =>
              status := Rejected;
            case Valid(opts) =>
              validated := Some(opts);
              isOpen, file := true, [];
              lastPacket := Ack(0);
              replies := [Ack(0)];
          }
        case Err(_, _) =>
          status := Rejected;
        case Data(block, data) =>
          replies := OnData(block, data);
        case _ =>
      }
    }

    method OnData(block: nat, data: bytes) returns (replies: seq<Packet>)
      requires status.Running?
      modifies this`status, this`validated, this`isOpen, this`file, this`blockNum, this`bytesReceived,
               this`packetsInWindow, this`lastPacket
      ensures (Model(), replies) == GetData(old(Model()), block, data)
      ensures |replies| <= 1
      ensures lastPacket == if replies == [] then old(lastPacket) else replies[0]
    {
      replies := [];
      if !isOpen {
        validated := Some(WithoutOack(requested));
        isOpen, file := true, [];
      }
      var expectedBlock := if blockNum == WIRE_MAX then 1 else blockNum + 1;
      if block != expectedBlock {
        if block == blockNum {
          lastPacket := Ack(blockNum);
          replies := [Ack(blockNum)];
        }
        return;
      }
      file := file + data;
      bytesReceived := bytesReceived + |data|;
      blockNum := block;
      packetsInWindow := packetsInWindow + 1;
      var isLast := |data| < BlockSize(validated);
      if isLast || packetsInWindow >= WindowSize(validated) {
        lastPacket := Ack(blockNum);
        replies := [Ack(blockNum)];
        packetsInWindow := 0;
      }
      if isLast {
        status := Resolved;
      }
    }

    /** The timer only ever repeats the last packet; it changes nothing the protocol sees. */
    method OnTimeout() returns (replies: seq<Packet>)
      requires status.Running?
      modifies this`status, this`retries
      ensures old(retries) < maxRetries ==>
                replies == [lastPacket] && retries == old(retries) + 1 && Model() == old(Model())
      ensures old(retries) >= maxRetries ==>
                replies == [] && retries == old(retries) && Model() == old(Model()).(status := Rejected)
    {
      if retries < maxRetries {
        retries := retries + 1;
        replies := [lastPacket];
      } else {
        status := Rejected;
        replies := [];
      }
    }
  }

  // ---- put -----------------------------------------------------------------------------

  datatype Putter = Putter(
    status: Status,
    requested: Opts,
    validated: Option<Opts>,
    isOpen: bool,
    blockNum: nat,
    bytesSent: nat,
    offset: nat)

  function NewPutter(requested: Opts): Putter {
    Putter(Running, requested, None, false, 0, 0, 0)
  }

  /** The loop of sendNextWindow from its i-th turn. */
  function PutWindow(c: Putter, source: bytes, i: nat): (Putter, seq<Packet>)
    decreases WindowSize(c.validated) - i
  {
    if i >= WindowSize(c.validated) then (c, [])
    else
      var chunk := ReadAt(source, c.offset, BlockSize(c.validated));
      if chunk == [] then (c, [])
      else
        var (c1, p) := PutOne(c, chunk);
        if |chunk| < BlockSize(c.validated) then (c1, [p])
        else Prepend([p], PutWindow(c1, source, i + 1))
  }

  function PutOne(c: Putter, chunk: bytes): (Putter, Packet) {
    (c.(offset := c.offset + |chunk|, blockNum := c.blockNum + 1, bytesSent := c.bytesSent + |chunk|),
     Data(PutWire(c.blockNum + 1), chunk))
  }

  function Prepend(ps: seq<Packet>, r: (Putter, seq<Packet>)): (Putter, seq<Packet>) {
    (r.0, ps + r.1)
  }

  lemma PrependTwice(ps: seq<Packet>, p: Packet, r: (Putter, seq<Packet>))
    ensures Prepend(ps, Prepend([p], r)) == Prepend(ps + [p], r)
  {
    assert ps + ([p] + r.1) == ps + [p] + r.1;
  }

  function SendNextWindow(c: Putter, source: bytes): (Putter, seq<Packet>) {
    if !c.isOpen then (c, []) else PutWindow(c, source, 0)
  }

  function PutOack(c: Putter, source: bytes, options: RawOptions): (Putter, seq<Packet>) {
    match ValidateOptions(options)
    case Invalid(_) => (c.(status := Rejected), [])
    case Valid(opts) => SendNextWindow(c.(validated := Some(opts), isOpen := true), source)
  }

  /** Any ACK will do: its block number is looked at only to open the file. */
  function PutAck(c0: Putter, source: bytes, block: nat): (Putter, seq<Packet>) {
    var c := if !c0.isOpen && block == 0
             then c0.(validated := Some(WithoutOack(c0.requested)), isOpen := true) else c0;
    if c.offset >= |source| then (c.(status := Resolved), [])
    else SendNextWindow(c, source)
  }

  function PutMessage(c: Putter, source: bytes, p: Packet): (Putter, seq<Packet>) {
    if !c.status.Running? then (c, [])
    else
      match p
      case Err(_, _) => (c.(status := Rejected), [])
      case Oack(options) => PutOack(c, source, options)
      case Ack(block) => PutAck(c, source, block)
      case _ => (c, [])
  }

  /** The uploading client after `count` more blocks. */
  function PutSent(c: Putter, source: bytes, count: nat): Putter {
    var total := c.blockNum + count;
    var offset := Min(total * BlockSize(c.validated), |source|);
    c.(blockNum := total, offset := offset, bytesSent := offset)
  }

  ghost predicate PutterOk(c: Putter, source: bytes) {
    && 0 < BlockSize(c.validated)
    && c.offset == c.bytesSent == Min(c.blockNum * BlockSize(c.validated), |source|)
    && c.blockNum <= BlockCount(|source|, BlockSize(c.validated))
  }

  function PutLeft(c: Putter, source: bytes, i: nat): int
    requires 0 < BlockSize(c.validated)
  {
    Min(WindowSize(c.validated) - i, BlockCount(|source|, BlockSize(c.validated)) - c.blockNum)
  }

  /** The client's window, in closed form: the next blocks of its file, as many as the
      window and the file allow, under their wire numbers. */
  lemma {:induction false} PutWindowSent(c: Putter, source: bytes, i: nat)
    requires PutterOk(c, source) && i <= WindowSize(c.validated)
    ensures var count := PutLeft(c, source, i);
            && 0 <= count
            && PutWindow(c, source, i) == (PutSent(c, source, count),
                                           Emission(source, BlockSize(c.validated), c.blockNum, count))
            && PutterOk(PutSent(c, source, count), source)
    decreases WindowSize(c.validated) - i
  {
    hide Wire, Block, Emission;
    var b, m := BlockSize(c.validated), c.blockNum;
    var chunk := ReadAt(source, c.offset, b);
    BlockCounts(|source|, b, m);
    NothingEmitted(source, b, m);
    if i == WindowSize(c.validated) || chunk == [] {
      assert PutSent(c, source, 0) == c;
    } else {
      PutOneSent(c, source);
      var c1 := PutSent(c, source, 1);
      if |chunk| < b {
        EmissionOne(source, b, m);
      } else {
        PutWindowSent(c1, source, i + 1);
        PutWindowGrows(c, source, i, PutLeft(c1, source, i + 1));
      }
    }
  }

  lemma PutOneSent(c: Putter, source: bytes)
    requires PutterOk(c, source) && c.blockNum * BlockSize(c.validated) < |source|
    ensures var b, m := BlockSize(c.validated), c.blockNum;
            && ReadAt(source, c.offset, b) == Block(source, b, m + 1)
            && PutOne(c, Block(source, b, m + 1)) == (PutSent(c, source, 1), Data(Wire(m + 1), Block(source, b, m + 1)))
            && PutterOk(PutSent(c, source, 1), source)
            && (|Block(source, b, m + 1)| < b ==> BlockCount(|source|, b) == m + 1)
  {
    hide Wire;
    var b, n, m := BlockSize(c.validated), |source|, c.blockNum;
    assert (m + 1) * b == m * b + b;
    BlockCounts(n, b, m);
    BlockCounts(n, b, m + 1);
    BlockNumberingAgrees(m + 1);
  }

  lemma PutWindowGrows(c: Putter, source: bytes, i: nat, count: nat)
    requires 0 < BlockSize(c.validated) && i < WindowSize(c.validated)
    requires count == PutLeft(PutSent(c, source, 1), source, i + 1)
    ensures PutLeft(c, source, i) == count + 1
    ensures PutSent(PutSent(c, source, 1), source, count) == PutSent(c, source, count + 1)
    ensures var b, m := BlockSize(c.validated), c.blockNum;
            [Data(Wire(m + 1), Block(source, b, m + 1))] + Emission(source, b, m + 1, count)
            == Emission(source, b, m, count + 1)
  {
    EmissionCons(source, BlockSize(c.validated), c.blockNum, count);
  }

  function PutDatagram(c: Putter, source: bytes, buf: bytes): (Putter, seq<Packet>) {
    if !c.status.Running? || |buf| < TftpCodec.OPCODE_LEN then (c, [])
    else if Buffers.ReadU16(buf) !in {TftpCodec.OACK, TftpCodec.ERROR, TftpCodec.ACK} then (c, [])
    else
      match TftpCodec.ParsePacket(buf)
      case Parsed(p) => PutMessage(c, source, p)
      case _ => (c.(status := Rejected), [])
  }

  class PutTransfer {
    const requested: Opts
    const source: bytes
    const maxRetries: nat
    var status: Status
    var validated: Option<Opts>
    var isOpen: bool
    var blockNum: nat
    var bytesSent: nat
    var offset: nat
    var retries: nat
    var lastPacket: Packet
    var serverPort: nat

    ghost function Model(): Putter
      reads this
    {
      Putter(status, requested, validated, isOpen, blockNum, bytesSent, offset)
    }

    constructor (requested: Opts, source: bytes, maxRetries: nat, request: Packet)
      ensures Model() == NewPutter(requested) && this.source == source && lastPacket == request
      ensures this.maxRetries == maxRetries && retries == 0 && serverPort == 0
    {
      this.requested, this.source, this.maxRetries := requested, source, maxRetries;
      status, validated, isOpen := Running, None, false;
      blockNum, bytesSent, offset, lastPacket := 0, 0, 0, request;
      retries, serverPort := 0, 0;
    }

    /** As for `get`. */
    method OnDatagram(buf: bytes, fromHost: bool, port: nat) returns (sent: seq<Packet>, stray: bool)
      requires 0 < port
      modifies this
      ensures stray <==> old(status).Running? && fromHost && old(serverPort) != 0 && port != old(serverPort)
      ensures !old(status).Running? || !fromHost || stray ==>
                sent == [] && Model() == old(Model()) && serverPort == old(serverPort)
                && retries == old(retries) && lastPacket == old(lastPacket)
      ensures old(status).Running? && fromHost && !stray ==>
                && (Model(), sent) == PutDatagram(old(Model()), source, buf) && serverPort == port
                && retries == (if |buf| < TftpCodec.OPCODE_LEN then old(retries) else 0)
                && lastPacket == if sent == [] then old(lastPacket) else sent[|sent| - 1]
    {
      sent, stray := [], false;
      if !status.Running? || !fromHost {
        return;
      }
      if serverPort == 0 {
        serverPort := port;
      } else if port != serverPort {
        return [], true;
      }
      if |buf| < TftpCodec.OPCODE_LEN {
        return;
      }
      var opcode := Buffers.ReadU16(buf);
      retries := 0;
      if opcode == TftpCodec.OACK || opcode == TftpCodec.ERROR || opcode == TftpCodec.ACK {
        match TftpCodec.ParsePacket(buf) {
          case Parsed(p) =>
            sent := OnMessage(p);
          case _ =>
            status := Rejected;
        }
      }
    }

    /** The timer only ever repeats the last packet, of a window too. */
    method OnTimeout() returns (sent: seq<Packet>)
      requires status.Running?
      modifies this`status, this`retries
      ensures old(retries) < maxRetries ==>
                sent == [lastPacket] && retries == old(retries) + 1 && Model() == old(Model())
      ensures old(retries) >= maxRetries ==>
                sent == [] && retries == old(retries) && Model() == old(Model()).(status := Rejected)
    {
      if retries < maxRetries {
        retries := retries + 1;
        sent := [lastPacket];
      } else {
        status := Rejected;
        sent := [];
      }
    }

    method NextWindow() returns (sent: seq<Packet>)
      modifies this`blockNum, this`bytesSent, this`offset, this`lastPacket
      ensures (Model(), sent) == SendNextWindow(old(Model()), source)
      ensures lastPacket == if sent == [] then old(lastPacket) else sent[|sent| - 1]
    {
      sent := [];
      if !isOpen {
        return;
      }
      var blksize, windowsize := BlockSize(validated), WindowSize(validated);
      ghost var whole := SendNextWindow(Model(), source);
      assert [] + whole.1 == whole.1;
      for i := 0 to windowsize
        invariant BlockSize(validated) == blksize && WindowSize(validated) == windowsize
        invariant whole == Prepend(sent, PutWindow(Model(), source, i))
        invariant lastPacket == if sent == [] then old(lastPacket) else sent[|sent| - 1]
      {
        var chunk := ReadAt(source, offset, blksize);
        if |chunk| == 0 {
          break;
        }
        ghost var before := sent;
        var p := SendBlock(chunk);
        sent := sent + [p];
        if |chunk| < blksize {
          return;
        }
        PrependTwice(before, p, PutWindow(Model(), source, i + 1));
      }
      assert sent + [] == sent;
    }

    method SendBlock(chunk: bytes) returns (p: Packet)
      modifies this`blockNum, this`bytesSent, this`offset, this`lastPacket
      ensures (Model(), p) == PutOne(old(Model()), chunk)
      ensures lastPacket == p
    {
      offset := offset + |chunk|;
      blockNum := blockNum + 1;
      var wireBlock := if blockNum > WIRE_MAX then (blockNum - 1) % WIRE_MAX + 1 else blockNum;
      p := Data(wireBlock, chunk);
      lastPacket := p;
      bytesSent := bytesSent + |chunk|;
    }

    method OnMessage(p: Packet) returns (sent: seq<Packet>)
      modifies this`status, this`validated, this`isOpen, this`blockNum, this`bytesSent, this`offset, this`lastPacket
      ensures (Model(), sent) == PutMessage(old(Model()), source, p)
      ensures lastPacket == if sent == [] then old(lastPacket) else sent[|sent| - 1]
    {
      sent := [];
      if !status.Running? {
        return;
      }
      match p {
        case Err(_, _) =>
          status := Rejected;
        case Oack(options) =>
          match ValidateOptions(options) {
            case Invalid(_) =>
              status := Rejected;
            case Valid(opts) =>
              validated, isOpen := Some(opts), true;
              sent := NextWindow();
          }
        case Ack(block) =>
          if !isOpen && block == 0 {
            validated, isOpen := Some(WithoutOack(requested)), true;
          }
          if offset >= |source| {
            status := Resolved;
            return;
          }
          sent := NextWindow();
        case _ =>
      }
    }
  }
}
