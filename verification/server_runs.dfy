/** A download as the server sees it: any sequence of ACKs whatever, new, repeated or wrong. */
module ServerRuns {
  import opened Bytes
  import opened Blocks
  import opened Options
  import opened Transfer
  import opened Emissions
  import opened TftpServer

  /** `log` is everything sent; `windows` counts the windows begun, and no code reads it. */
  datatype Serving = Serving(t: Core, registered: bool, log: seq<Packet>, windows: nat)

  /** The request has been handled; the OACK itself is not in the log. */
  function Begin(file: bytes, opts: Opts, wrap: bool, withOptions: bool): Serving {
    var t := AdvanceSend(InitRRQ(Fresh(true, wrap, opts), withOptions)).0;
    if withOptions then Serving(t, true, [], 0)
    else
      var (t', ps) := SendLoop(t, file, 0);
      Serving(t', true, ps, 1)
  }

  function OnAck(s: Serving, file: bytes, n: nat): Serving {
    if !s.registered then s.(log := s.log + [NO_ACTIVE_TRANSFER])
    else
      var h := HandleTransferAck(s.t, file, n);
      Serving(h.t, h.registered, s.log + h.packets, if s.t.phase.Send? && h.registered then s.windows + 1 else s.windows)
  }

  function OnAcks(s: Serving, file: bytes, ns: seq<nat>): Serving
    decreases |ns|
  {
    if ns == [] then s else OnAck(OnAcks(s, file, ns[..|ns| - 1]), file, ns[|ns| - 1])
  }

  predicate Active(s: Serving) {
    s.registered && !s.t.phase.Done?
  }

  /** The log is the file's first blocks, as many as the windows begun hold. */
  ghost predicate InStep(s: Serving, file: bytes) {
    var b, w := s.t.opts.blksize, s.t.opts.windowsize;
    && SenderOk(s.t, file) && (s.t.phase.Send? || s.t.phase.SendLast?)
    && s.t.totalPackets == Min(s.windows * w, BlockCount(|file|, b))
    && (s.t.phase.Send? ==> s.t.totalPackets == s.windows * w)
    && s.log == Emission(file, b, 0, s.t.totalPackets)
  }

  /** The transfer is over: behind the DATA packets only errors were sent. */
  ghost predicate Over(s: Serving, file: bytes, b: nat, n: nat) {
    && s.t.phase.Done? && n <= |s.log| && s.log[..n] == Emission(file, b, 0, n)
    && (forall i :: n <= i < |s.log| ==> s.log[i].Err?)
    && (n > 0 ==> (n - 1) * b < |file|)
  }

  ghost predicate Inv(s: Serving, file: bytes) {
    && 0 < s.t.opts.blksize && 0 < s.t.opts.windowsize
    && (Active(s) ==> InStep(s, file))
    && (!Active(s) ==> exists n :: Over(s, file, s.t.opts.blksize, n))
  }

  /** A window makes the next blocks, or, in strict RFC 1350 mode, ends the transfer. */
  lemma WindowKeeps(s: Serving, file: bytes, t1: Core)
    requires InStep(s, file) && s.t.phase.Send? && t1 == s.t.(lastAcked := t1.lastAcked)
    ensures var (t', ps) := SendLoop(t1, file, 0); Inv(Serving(t', true, s.log + ps, s.windows + 1), file)
  {
    hide SendLoop, WindowOf, Emission, BlockCount, Wire, Inv;
    WindowSent(t1, file, 0);
    SendLoopKeepsOpts(t1, file, 0);
    var (t', ps) := SendLoop(t1, file, 0);
    WindowOfKeeps(s, file, t1, t', ps);
  }

  lemma WindowOfKeeps(s: Serving, file: bytes, t1: Core, t': Core, ps: seq<Packet>)
    requires InStep(s, file) && s.t.phase.Send? && t1 == s.t.(lastAcked := t1.lastAcked)
    requires WindowOf(t1, file, 0, t', ps) && t'.opts == s.t.opts
    ensures Inv(Serving(t', true, s.log + ps, s.windows + 1), file)
  {
    hide Emission, Wire, Block, BlockCount;
    var b, w, m := s.t.opts.blksize, s.t.opts.windowsize, s.t.totalPackets;
    var count := WindowLeft(t1, file, 0);
    assert (s.windows + 1) * w == m + w;
    if t1.wrap || m + count <= WIRE_MAX {
      EmissionAppend(file, b, 0, m, count);
    } else {
      EmissionAppend(file, b, 0, m, WIRE_MAX - m);
      assert s.log + ps == Emission(file, b, 0, WIRE_MAX) + [Err(NOT_DEFINED, OUT_OF_RANGE)];
      OverAtLimit(file, b, Serving(t', true, s.log + ps, s.windows + 1));
    }
  }

  lemma OverAtLimit(file: bytes, b: nat, s: Serving)
    requires 0 < b && s.t.phase.Done? && WIRE_MAX < BlockCount(|file|, b)
    requires s.log == Emission(file, b, 0, WIRE_MAX) + [Err(NOT_DEFINED, OUT_OF_RANGE)]
    ensures Over(s, file, b, WIRE_MAX)
  {
    hide Emission;
    BlockCounts(|file|, b, WIRE_MAX);
    MulMono(WIRE_MAX - 1, WIRE_MAX, b);
    assert |Emission(file, b, 0, WIRE_MAX)| == WIRE_MAX by { EmissionLength(file, b, 0, WIRE_MAX); }
  }

  lemma EmissionLength(file: bytes, b: nat, made: nat, count: nat)
    ensures |Emission(file, b, made, count)| == count
  {
  }

  lemma EndsHere(s: Serving, file: bytes, s': Serving)
    requires InStep(s, file) && s'.t.phase.Done? && s'.log == s.log
    ensures Over(s', file, s.t.opts.blksize, s.t.totalPackets)
  {
    hide Emission, BlockCount;
    var b, n := s.t.opts.blksize, s.t.totalPackets;
    EmissionLength(file, b, 0, n);
    assert s.log[..n] == s.log;
    if n > 0 {
      BlockCounts(|file|, b, n - 1);
    }
  }

  lemma AckKeeps(s: Serving, file: bytes, n: nat)
    requires Inv(s, file)
    ensures Inv(OnAck(s, file, n), file)
    ensures OnAck(s, file, n).t.opts == s.t.opts
    ensures Active(OnAck(s, file, n)) ==> Active(s) && OnAck(s, file, n).windows == s.windows + 1
  {
    hide SendLoop, InStep, Over, Emission;
    var s' := OnAck(s, file, n);
    if !Active(s) {
      var k :| Over(s, file, s.t.opts.blksize, k);
      OverStays(s, file, s.t.opts.blksize, k, s');
    } else {
      PhaseInStep(s, file);
      var t1 := HandleAck(s.t, n).0;
      if t1.phase.Send? {
        SendLoopKeepsOpts(t1, file, 0);
        WindowKeeps(s, file, t1);
      } else {
        EndsHere(s, file, s');
      }
    }
  }

  lemma PhaseInStep(s: Serving, file: bytes)
    requires InStep(s, file)
    ensures s.t.phase.Send? || s.t.phase.SendLast?
  {
  }

  lemma OverStays(s: Serving, file: bytes, b: nat, k: nat, s': Serving)
    requires Over(s, file, b, k) && s'.t == s.t
    requires s'.log == s.log || s'.log == s.log + [NO_ACTIVE_TRANSFER]
    ensures Over(s', file, b, k)
  {
    assert s'.log[..k] == s.log[..k];
  }

  lemma BeginKeeps(file: bytes, opts: Opts, wrap: bool, withOptions: bool)
    requires 0 < opts.blksize && 0 < opts.windowsize
    ensures Inv(Begin(file, opts, wrap, withOptions), file) && Begin(file, opts, wrap, withOptions).t.opts == opts
  {
    hide SendLoop, Emission;
    var t := AdvanceSend(InitRRQ(Fresh(true, wrap, opts), withOptions)).0;
    EmissionLength(file, opts.blksize, 0, 0);
    assert InStep(Serving(t, true, [], 0), file);
    if !withOptions {
      WindowKeeps(Serving(t, true, [], 0), file, t);
      assert [] + SendLoop(t, file, 0).1 == SendLoop(t, file, 0).1;
      SendLoopKeepsOpts(t, file, 0);
    }
  }

  lemma {:induction false} AcksKeep(s: Serving, file: bytes, ns: seq<nat>)
    requires Inv(s, file)
    ensures var s' := OnAcks(s, file, ns);
            Inv(s', file) && s'.t.opts == s.t.opts && (Active(s') ==> s'.windows == s.windows + |ns|)
    decreases |ns|
  {
    hide OnAck, Inv, Active;
    if ns != [] {
      AcksKeep(s, file, ns[..|ns| - 1]);
      AckKeeps(OnAcks(s, file, ns[..|ns| - 1]), file, ns[|ns| - 1]);
    }
  }

  /** The payloads of the first blocks, put together, are the beginning of the file. */
  lemma {:induction false} EmissionPayload(file: bytes, b: nat, made: nat, count: nat)
    ensures FirstBlocks(file, b, made) + Payload(Emission(file, b, made, count)) == FirstBlocks(file, b, made + count)
    decreases count
  {
    if count > 0 {
      EmissionCons(file, b, made, count - 1);
      EmissionPayload(file, b, made + 1, count - 1);
      ExtendBlocks(file, b, made);
      PayloadCons(Data(Wire(made + 1), Block(file, b, made + 1)), Emission(file, b, made + 1, count - 1));
      assert made + 1 + (count - 1) == made + count;
    }
  }

  /** Every ACK that does not end the transfer lets exactly one window go, be it new or a
      duplicate; so after any sequence of ACKs the server has sent the file's first blocks
      under their wire numbers, each once, and all its counters agree with them.  When the
      transfer is over, only errors follow. */
  lemma OneWindowPerAck(file: bytes, opts: Opts, wrap: bool, withOptions: bool, ns: seq<nat>)
    requires 0 < opts.blksize && 0 < opts.windowsize
    ensures var s := OnAcks(Begin(file, opts, wrap, withOptions), file, ns);
            if Active(s) then HasSent(s, file, BlocksIn(|file|, opts, |ns| + (if withOptions then 0 else 1)))
            else exists n :: Over(s, file, opts.blksize, n)
  {
    hide OnAcks, Begin, Over, InStep, HasSent, BlocksIn;
    var s0 := Begin(file, opts, wrap, withOptions);
    BeginKeeps(file, opts, wrap, withOptions);
    AcksKeep(s0, file, ns);
    var s := OnAcks(s0, file, ns);
    if Active(s) {
      BeginCounts(file, opts, wrap, withOptions);
      InStepHasSent(s, file);
    }
  }

  /** Exactly the file's first `sent` blocks have been sent, and the counters agree. */
  ghost predicate HasSent(s: Serving, file: bytes, sent: nat) {
    var b := s.t.opts.blksize;
    && s.log == Emission(file, b, 0, sent) && s.t.totalPackets == sent
    && s.t.fileOffset == s.t.bytesSent == Min(sent * b, |file|)
    && Payload(s.log) == file[..Min(sent * b, |file|)]
  }

  /** How many blocks a number of windows hold. */
  function BlocksIn(size: nat, opts: Opts, windows: nat): nat
    requires 0 < opts.blksize
  {
    Min(windows * opts.windowsize, BlockCount(size, opts.blksize))
  }

  lemma InStepHasSent(s: Serving, file: bytes)
    requires InStep(s, file)
    ensures HasSent(s, file, BlocksIn(|file|, s.t.opts, s.windows))
  {
    hide Emission, BlockCount, Payload, Wire;
    EmissionPayload(file, s.t.opts.blksize, 0, s.t.totalPackets);
    assert FirstBlocks(file, s.t.opts.blksize, 0) == [];
  }

  lemma BeginCounts(file: bytes, opts: Opts, wrap: bool, withOptions: bool)
    ensures Begin(file, opts, wrap, withOptions).windows == if withOptions then 0 else 1
  {
  }
}
