/** The server's side of one TFTP transfer: the state machine of src/tftp/state.mts.

    `Core` is the value of the machine and the functions over it say what each operation
    does; the class `TFTPTransfer` holds the same fields and updates them in place, each
    method proved against its function. */
module Transfer {
  import opened Bytes
  import opened Blocks
  import opened Options

  datatype Phase = SendOack | Send | SendLast | Recv | RecvAck | Error | Done

  const DEFAULT_OPTS := Opts(DEFAULT_BLOCK_SIZE, DEFAULT_WINDOW_SIZE, None, None)
  const DEFAULT_TIMEOUT_SECS: nat := 10

  const NOT_DEFINED: nat := 0
  const ILLEGAL_OPERATION: nat := 4

  /** A packet after parsing; TftpCodec proves that the octets parse back to it. */
  datatype Packet =
    | Rrq(filename: string, mode: string, options: RawOptions)
    | Wrq(filename: string, mode: string, options: RawOptions)
    | Data(block: nat, data: bytes)
    | Ack(block: nat)
    | Err(code: nat, message: string)
    | Oack(options: RawOptions)

  /** The packets to send, and whether the transfer is over. */
  datatype StateResult = StateResult(packets: seq<Packet>, done: bool)

  datatype Core = Core(
    reading: bool,
    wrap: bool,
    phase: Phase,
    errorCode: nat,
    errorMessage: string,
    opts: Opts,
    blockNum: nat,
    lastAcked: nat,
    totalPackets: nat,
    sendBuffer: bytes,
    recvData: bytes,
    bytesReceived: nat,
    bytesSent: nat,
    fileOffset: nat)

  function Fresh(reading: bool, wrap: bool, opts: Opts): Core {
    Core(reading, wrap, Done, NOT_DEFINED, "", opts, 0, 0, 0, [], [], 0, 0, 0)
  }

  function InitRRQ(t: Core, hasOptions: bool): Core {
    t.(blockNum := 0, phase := if hasOptions then SendOack else Send)
  }

  function InitWRQ(t: Core, hasOptions: bool): Core {
    t.(blockNum := 1, phase := if hasOptions then SendOack else RecvAck)
  }

  function SetError(t: Core, code: nat, message: string): Core {
    t.(phase := Error, errorCode := code, errorMessage := message)
  }

  function AdvanceError(t: Core): (Core, StateResult) {
    (t.(phase := Done), StateResult([Err(t.errorCode, t.errorMessage)], true))
  }

  function AdvanceSend(t: Core): (Core, Option<StateResult>) {
    match t.phase
    case SendOack =>
      (t.(phase := if t.reading then Send else Recv), Some(StateResult([Oack(ValidatedToRaw(t.opts))], false)))
    case RecvAck => (t.(phase := Recv), Some(StateResult([Ack(0)], false)))
    case Error => var (t', r) := AdvanceError(t); (t', Some(r))
    case _ => (t, None)
  }

  /** Makes one DATA packet.  None: the block number no longer fits the uint16 field, and
      encoding it throws after the counters have moved. */
  function ProduceData(t: Core, fileData: bytes): (Core, Option<Packet>) {
    var all := t.sendBuffer + fileData;
    var n := NextBlock(t.blockNum, t.wrap);
    var data := all[..Min(|all|, t.opts.blksize)];
    var t' := t.(
      sendBuffer := all[|data|..],
      blockNum := n,
      totalPackets := t.totalPackets + 1,
      phase := if |data| < t.opts.blksize then SendLast else t.phase);
    (t', if n <= WIRE_MAX then Some(Data(n, data)) else None)
  }

  function Mismatch(t: Core, message: string): (Core, Option<StateResult>) {
    var (t', r) := AdvanceError(SetError(t, ILLEGAL_OPERATION, message));
    (t', Some(r))
  }

  function HandleAck(t: Core, blockNum: nat): (Core, Option<StateResult>) {
    if t.phase.SendLast? then (t.(phase := Done), Some(StateResult([], true)))
    else if t.phase.Send? then
      if blockNum == 0 && t.totalPackets == 0 then (t, Some(StateResult([], false)))
      else if blockNum == t.blockNum then (t.(lastAcked := blockNum), None)
      else if blockNum == t.blockNum - 1 then (t, None)
      else Mismatch(t, "ACK block number mismatch")
    else (t, None)
  }

  function HandleData(t: Core, blockNum: nat, data: bytes): (Core, Option<StateResult>) {
    if !t.phase.Recv? then (t, None)
    else if blockNum != t.blockNum then
      if blockNum == t.blockNum - 1 then (t, Some(StateResult([Ack(t.blockNum - 1)], false)))
      else Mismatch(t, "DATA block number mismatch")
    else if |data| > t.opts.blksize then Mismatch(t, "DATA exceeds negotiated blksize")
    else AcceptData(t, data)
  }

  /** The block the server waits for has come. */
  function AcceptData(t: Core, data: bytes): (Core, Option<StateResult>) {
    var current := t.blockNum;
    var stored := t.(recvData := data, bytesReceived := t.bytesReceived + |data|);
    if |data| < t.opts.blksize then
      (stored.(lastAcked := current, phase := Done), Some(StateResult([Ack(current)], true)))
    else
      var next := stored.(blockNum := NextBlock(current, t.wrap), totalPackets := t.totalPackets + 1);
      if current >= t.lastAcked + t.opts.windowsize then
        (next.(lastAcked := current), Some(StateResult([Ack(current)], false)))
      else (next, None)
  }

  /** What the collection of silent transfers goes by. */
  datatype Watch = Watch(lastSeen: int, retries: nat)

  /** How long a peer may be silent, in milliseconds. */
  function Patience(opts: Opts): nat {
    (if opts.timeout.Some? then opts.timeout.value else DEFAULT_TIMEOUT_SECS) * 1000
  }

  class TFTPTransfer {
    const reading: bool
    const wrapBlockNum: bool
    const maxRetries: nat
    var phase: Phase
    var errorCode: nat
    var errorMessage: string
    var opts: Opts
    var blockNum: nat
    var lastAcked: nat
    var totalPackets: nat
    var filesize: nat
    var sendBuffer: bytes
    var recvData: bytes
    var bytesReceived: nat
    var bytesSent: nat
    var fileOffset: nat
    var lastSeen: int
    var retries: nat

    ghost function Model(): Core
      reads this
    {
      Core(reading, wrapBlockNum, phase, errorCode, errorMessage, opts, blockNum, lastAcked,
           totalPackets, sendBuffer, recvData, bytesReceived, bytesSent, fileOffset)
    }

    function Watchdog(): Watch
      reads this
    {
      Watch(lastSeen, retries)
    }

    constructor (reading: bool, wrapBlockNum: bool, maxRetries: nat, opts: Opts, now: int)
      ensures Model() == Fresh(reading, wrapBlockNum, opts)
      ensures lastSeen == now && retries == 0 && filesize == 0 && this.maxRetries == maxRetries
    {
      this.reading, this.wrapBlockNum, this.maxRetries := reading, wrapBlockNum, maxRetries;
      phase, errorCode, errorMessage, this.opts := Done, NOT_DEFINED, "", opts;
      blockNum, lastAcked, totalPackets, filesize := 0, 0, 0, 0;
      sendBuffer, recvData, bytesReceived, bytesSent, fileOffset := [], [], 0, 0, 0;
      lastSeen, retries := now, 0;
    }

    /** A requested tsize of 0 asks for the size of the file. */
    method SetOptions(opts: Opts)
      modifies this`opts
      ensures Model() == old(Model()).(opts := if opts.tsize == Some(0) then opts.(tsize := Some(filesize)) else opts)
    {
      this.opts := if opts.tsize == Some(0) then opts.(tsize := Some(filesize)) else opts;
    }

    method InitRead(hasOptions: bool)
      modifies this`blockNum, this`phase
      ensures Model() == InitRRQ(old(Model()), hasOptions)
    {
      blockNum := 0;
      phase := if hasOptions then SendOack else Send;
    }

    method InitWrite(hasOptions: bool)
      modifies this`blockNum, this`phase
      ensures Model() == InitWRQ(old(Model()), hasOptions)
    {
      blockNum := 1;
      phase := if hasOptions then SendOack else RecvAck;
    }

    method Fail(code: nat, message: string)
      modifies this`phase, this`errorCode, this`errorMessage
      ensures Model() == SetError(old(Model()), code, message)
    {
      phase, errorCode, errorMessage := Error, code, message;
    }

    method SendError() returns (result: StateResult)
      modifies this`phase
      ensures (Model(), result) == AdvanceError(old(Model()))
    {
      result := StateResult([Err(errorCode, errorMessage)], true);
      phase := Done;
    }

    method Advance(now: int) returns (result: Option<StateResult>)
      modifies this`phase, this`lastSeen
      ensures (Model(), result) == AdvanceSend(old(Model()))
      ensures lastSeen == now
    {
      lastSeen := now;
      result := None;
      match phase {
        case SendOack =>
          phase := if reading then Send else Recv;
          result := Some(StateResult([Oack(ValidatedToRaw(opts))], false));
        case RecvAck =>
          phase := Recv;
          result := Some(StateResult([Ack(0)], false));
        case Error =>
          var r := SendError();
          result := Some(r);
        case _ =>
      }
    }

    method ProduceDataPacket(fileData: bytes, isEOF: bool) returns (packet: Option<Packet>)
      modifies this`sendBuffer, this`blockNum, this`totalPackets, this`phase
      ensures (Model(), packet) == ProduceData(old(Model()), fileData)
    {
      var data := sendBuffer + fileData;
      ghost var all := data;
      sendBuffer := [];
      blockNum := blockNum + 1;
      totalPackets := totalPackets + 1;
      if blockNum > WIRE_MAX && wrapBlockNum {
        blockNum := BLOCKNUM_RESET;
      }
      var blksize := opts.blksize;
      if |data| > blksize {
        sendBuffer := data[blksize..];
        data := data[..blksize];
      }
      if |data| < blksize || isEOF {
        if |data| < blksize {
          phase := SendLast;
        }
      }
      assert data == all[..Min(|all|, blksize)] && sendBuffer == all[|data|..];
      packet := if blockNum <= WIRE_MAX then Some(Data(blockNum, data)) else None;
    }

    method HandleACK(number: nat, now: int) returns (result: Option<StateResult>)
      modifies this`phase, this`errorCode, this`errorMessage, this`lastAcked, this`lastSeen, this`retries
      ensures (Model(), result) == HandleAck(old(Model()), number)
      ensures lastSeen == now && retries == 0
    {
      lastSeen, retries := now, 0;
      if phase.SendLast? {
        phase := Done;
        return Some(StateResult([], true));
      }
      if phase.Send? {
        if number == 0 && totalPackets == 0 {
          return Some(StateResult([], false));
        }
        if number != blockNum {
          if number == blockNum - 1 {
            return None;
          }
          Fail(ILLEGAL_OPERATION, "ACK block number mismatch");
          var r := SendError();
          return Some(r);
        }
        lastAcked := number;
      }
      return None;
    }

    method HandleDATA(number: nat, data: bytes, now: int) returns (result: Option<StateResult>)
      modifies this`phase, this`errorCode, this`errorMessage, this`lastAcked, this`blockNum, this`totalPackets,
               this`recvData, this`bytesReceived, this`lastSeen, this`retries
      ensures (Model(), result) == HandleData(old(Model()), number, data)
      ensures lastSeen == now && retries == 0
    {
      lastSeen, retries := now, 0;
      if !phase.Recv? {
        return None;
      }
      if number != blockNum {
        if number == blockNum - 1 {
          return Some(StateResult([Ack(blockNum - 1)], false));
        }
        Fail(ILLEGAL_OPERATION, "DATA block number mismatch");
        var r := SendError();
        return Some(r);
      }
      if |data| > opts.blksize {
        Fail(ILLEGAL_OPERATION, "DATA exceeds negotiated blksize");
        var r := SendError();
        return Some(r);
      }
      result := AcceptBlock(data);
    }

    /** The rest of the handler: the block it waits for has come. */
    method AcceptBlock(data: bytes) returns (result: Option<StateResult>)
      modifies this`phase, this`lastAcked, this`blockNum, this`totalPackets, this`recvData, this`bytesReceived
      ensures (Model(), result) == AcceptData(old(Model()), data)
    {
      recvData := data;
      bytesReceived := bytesReceived + |data|;
      var isLast := |data| < opts.blksize;
      var currentBlock := blockNum;
      if !isLast {
        blockNum := blockNum + 1;
        totalPackets := totalPackets + 1;
        if blockNum > WIRE_MAX && wrapBlockNum {
          blockNum := BLOCKNUM_RESET;
        }
      }
      var windowEnd := lastAcked + opts.windowsize;
      if isLast || currentBlock >= windowEnd {
        lastAcked := currentBlock;
        if isLast {
          phase := Done;
          return Some(StateResult([Ack(currentBlock)], true));
        }
        return Some(StateResult([Ack(currentBlock)], false));
      }
      return None;
    }

    function TimeoutMs(): nat
      reads this
    {
      Patience(opts)
    }

    predicate IsTimedOut(now: int)
      reads this
    {
      now - lastSeen > TimeoutMs() * (retries + 1)
    }

    method IncrementRetry() returns (again: bool)
      modifies this`retries
      ensures retries == old(retries) + 1
      ensures again <==> retries <= maxRetries
    {
      retries := retries + 1;
      again := retries <= maxRetries;
    }
  }

  // ---- Reblocking: chunks of any sizes become blocks, and nothing is lost -------------

  /** The machine fed with one chunk after another; the DATA packets it makes, in order.
      It stops where the sender does: at the first short packet, or at the throw. */
  function Feed(t: Core, chunks: seq<bytes>): (Core, seq<Packet>)
    decreases |chunks|
  {
    if chunks == [] || !t.phase.Send? then (t, [])
    else
      var (t1, p) := ProduceData(t, chunks[0]);
      if p.None? then (t1, [])
      else
        var (t2, ps) := Feed(t1, chunks[1..]);
        (t2, [p.value] + ps)
  }

  function Payload(ps: seq<Packet>): bytes {
    if ps == [] then [] else (if ps[0].Data? then ps[0].data else []) + Payload(ps[1..])
  }

  /** Consecutive wire numbers after the first `made`; every payload but the last a full block. */
  ghost predicate Blocked(ps: seq<Packet>, made: nat, b: nat) {
    && (forall i :: 0 <= i < |ps| ==> ps[i].Data? && ps[i].block == Wire(made + i + 1) && |ps[i].data| <= b)
    && (forall i :: 0 <= i < |ps| - 1 ==> |ps[i].data| == b)
  }

  /** What feeding `chunks` to `t` must amount to: the payloads and what is left in the
      buffer are the input, as far as it was taken; every payload but the last is exactly
      a block, numbered in wire order; and the state becomes SendLast exactly at the
      first short payload. */
  ghost predicate Conserved(t: Core, chunks: seq<bytes>, t': Core, ps: seq<Packet>) {
    && |ps| <= |chunks|
    && Payload(ps) + t'.sendBuffer == t.sendBuffer + Concat(chunks[..|ps|])
    && Blocked(ps, t.totalPackets, t.opts.blksize)
    && t'.totalPackets == t.totalPackets + |ps|
    && (t'.phase.SendLast? <==> |ps| > 0 && |ps[|ps| - 1].data| < t.opts.blksize)
    && (t'.phase.SendLast? || (t'.phase.Send? && |ps| == |chunks|))
  }

  /** How many packets the chunks make, numbers permitting: up to the first short one. */
  function Made(left: nat, b: nat, chunks: seq<bytes>): nat
    decreases |chunks|
  {
    if chunks == [] then 0
    else if left + |chunks[0]| < b then 1
    else 1 + Made(left + |chunks[0]| - b, b, chunks[1..])
  }

  /** One packet that can be numbered. */
  lemma Produces(t: Core, chunk: bytes)
    requires t.phase.Send? && t.blockNum == Wire(t.totalPackets) && (t.wrap || t.totalPackets <= WIRE_MAX)
    ensures var (t1, p) := ProduceData(t, chunk);
            var full := |t.sendBuffer| + |chunk| >= t.opts.blksize;
            && t1.opts == t.opts && t1.wrap == t.wrap && t1.totalPackets == t.totalPackets + 1
            && (p.Some? <==> t.wrap || t.totalPackets < WIRE_MAX)
            && (p.Some? ==> t1.blockNum == Wire(t1.totalPackets) && p.value.Data? && p.value.block == t1.blockNum)
            && (full ==> t1.phase.Send? && |t1.sendBuffer| == |t.sendBuffer| + |chunk| - t.opts.blksize)
            && (!full ==> t1.phase.SendLast?)
  {
    hide Wire;
    BlockNumberingAgrees(t.totalPackets);
    BlockNumberingAgrees(t.totalPackets + 1);
  }

  lemma {:induction false} FeedConserves(t: Core, chunks: seq<bytes>)
    requires t.phase.Send? && t.blockNum == Wire(t.totalPackets)
    requires t.wrap || t.totalPackets + Made(|t.sendBuffer|, t.opts.blksize, chunks) <= WIRE_MAX
    ensures var (t', ps) := Feed(t, chunks); Conserved(t, chunks, t', ps)
    decreases |chunks|
  {
    hide Wire, Conserved, ProduceData;
    if chunks == [] {
      NothingFed(t);
    } else {
      var r1 := ProduceData(t, chunks[0]);
      Produces(t, chunks[0]);
      var r2 := Feed(r1.0, chunks[1..]);
      if r1.0.phase.Send? {
        FeedConserves(r1.0, chunks[1..]);
      } else {
        assert r2 == (r1.0, []);
      }
      ConservedStep(t, chunks, r1.1.value, r1.0, r2.0, r2.1);
    }
  }

  lemma NothingFed(t: Core)
    requires t.phase.Send?
    ensures Conserved(t, [], t, [])
  {
    assert Concat([]) == [] && Payload([]) == [];
  }

  /** In strict mode the packet after number 65535 is not made, and its chunk is lost. */
  lemma {:induction false} FeedThrows(t: Core, chunks: seq<bytes>)
    requires t.phase.Send? && t.blockNum == Wire(t.totalPackets) && !t.wrap && t.totalPackets <= WIRE_MAX
    requires t.totalPackets + Made(|t.sendBuffer|, t.opts.blksize, chunks) > WIRE_MAX
    ensures var (t', ps) := Feed(t, chunks); |ps| == WIRE_MAX - t.totalPackets && t'.totalPackets == WIRE_MAX + 1
    decreases |chunks|
  {
    hide Wire, ProduceData;
    Produces(t, chunks[0]);
    var r := ProduceData(t, chunks[0]);
    if t.totalPackets < WIRE_MAX {
      var rest := Feed(r.0, chunks[1..]);
      FeedThrows(r.0, chunks[1..]);
      assert Feed(t, chunks) == (rest.0, [r.1.value] + rest.1);
    } else {
      assert Feed(t, chunks) == (r.0, []);
    }
  }

  /** Nothing is lost exactly as long as the packets can be numbered. */
  lemma ReblockingConserves(t: Core, chunks: seq<bytes>)
    requires t.phase.Send? && t.blockNum == Wire(t.totalPackets) && (t.wrap || t.totalPackets <= WIRE_MAX)
    ensures var (t', ps) := Feed(t, chunks);
            Conserved(t, chunks, t', ps) <==>
            t.wrap || t.totalPackets + Made(|t.sendBuffer|, t.opts.blksize, chunks) <= WIRE_MAX
  {
    if t.wrap || t.totalPackets + Made(|t.sendBuffer|, t.opts.blksize, chunks) <= WIRE_MAX {
      FeedConserves(t, chunks);
    } else {
      FeedThrows(t, chunks);
    }
  }

  lemma ConservedStep(t: Core, chunks: seq<bytes>, p: Packet, t1: Core, t2: Core, rest: seq<Packet>)
    requires 0 < |chunks| && t.phase.Send?
    requires p.Data? && p.block == Wire(t.totalPackets + 1)
    requires (t1, Some(p)) == ProduceData(t, chunks[0])
    requires t1.phase.Send? ==> Conserved(t1, chunks[1..], t2, rest)
    requires !t1.phase.Send? ==> t2 == t1 && rest == []
    ensures Conserved(t, chunks, t2, [p] + rest)
  {
    var all := t.sendBuffer + chunks[0];
    assert p.data + t1.sendBuffer == all;
    if rest == [] {
      assert Payload(rest) == [] && chunks[1..][..|rest|] == [];
      assert Payload(rest) + t2.sendBuffer == t1.sendBuffer + Concat(chunks[1..][..|rest|]);
    }
    PrependChunk(t.sendBuffer, chunks, p, t1.sendBuffer, rest, t2.sendBuffer);
    PrependBlock(p, rest, t.totalPackets, t.opts.blksize);
    var ps := [p] + rest;
    assert ps[|ps| - 1] == if rest == [] then p else rest[|rest| - 1];
  }

  lemma PrependChunk(before: bytes, chunks: seq<bytes>, p: Packet, left: bytes, rest: seq<Packet>, end: bytes)
    requires |rest| < |chunks| && p.Data?
    requires p.data + left == before + chunks[0]
    requires Payload(rest) + end == left + Concat(chunks[1..][..|rest|])
    ensures Payload([p] + rest) + end == before + Concat(chunks[..|rest| + 1])
  {
    hide Payload, Concat;
    PayloadCons(p, rest);
    ConcatCons(chunks, |rest|);
    Regroup(before, chunks[0], Concat(chunks[1..][..|rest|]), p.data, left, Payload(rest), end);
  }

  lemma PayloadCons(p: Packet, rest: seq<Packet>)
    requires p.Data?
    ensures Payload([p] + rest) == p.data + Payload(rest)
  {
    assert ([p] + rest)[1..] == rest;
  }

  lemma ConcatCons(chunks: seq<bytes>, n: nat)
    requires n < |chunks|
    ensures Concat(chunks[..n + 1]) == chunks[0] + Concat(chunks[1..][..n])
  {
    assert chunks[..n + 1][1..] == chunks[1..][..n];
  }

  lemma Regroup(before: bytes, chunk: bytes, tail: bytes, data: bytes, left: bytes, payload: bytes, end: bytes)
    requires data + left == before + chunk
    requires payload + end == left + tail
    ensures (data + payload) + end == before + (chunk + tail)
  {
    assert (data + payload) + end == data + (payload + end);
    assert data + (left + tail) == (data + left) + tail;
    assert (before + chunk) + tail == before + (chunk + tail);
  }

  lemma PrependBlock(p: Packet, rest: seq<Packet>, made: nat, b: nat)
    requires p.Data? && p.block == Wire(made + 1) && |p.data| <= b
    requires Blocked(rest, made + 1, b)
    requires rest == [] || |p.data| == b
    ensures Blocked([p] + rest, made, b)
  {
    var ps := [p] + rest;
    forall i | 0 <= i < |ps| ensures ps[i].Data? && ps[i].block == Wire(made + i + 1) && |ps[i].data| <= b {
      if i > 0 {
        assert ps[i] == rest[i - 1];
        assert made + 1 + (i - 1) + 1 == made + i + 1;
      }
    }
    forall i | 0 <= i < |ps| - 1 ensures |ps[i].data| == b {
      if i > 0 {
        assert ps[i] == rest[i - 1];
      }
    }
  }
}
