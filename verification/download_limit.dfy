/** The size limit of a download on an unreliable network, exactly.

    Block numbers are only 16 bits wide, so a late DATA packet can pass for the one 65535
    blocks after it; a client that goes by other block sizes than the server, or that is
    sent a second OACK, goes wrong earlier.  A run that does is built here for every file
    that is large enough. */
module DownloadLimit {
  import opened Bytes
  import opened Blocks
  import opened Options
  import opened Transfer
  import opened TftpServer
  import opened TftpClient
  import opened Download

  ghost predicate Listening(c: Getter, cb: nat) {
    && c.status.Running?
    && OpenOnData(c).file == c.file && BlockSize(OpenOnData(c).validated) == cb
  }

  /** The first `count` entries of the log are the first blocks of the file. */
  ghost predicate Logged(log: seq<Packet>, file: bytes, b: nat, count: nat) {
    count <= |log| && forall i :: 0 <= i < count ==> log[i] == Data(Wire(i + 1), Block(file, b, i + 1))
  }

  /** The blocks whose numbers are all different. */
  function Total(size: nat, b: nat): nat
    requires 0 < b
  {
    Min(WIRE_MAX, BlockCount(size, b))
  }

  /** The server has acknowledgement of the first m blocks and has sent the window after
      them, as far as the file and the numbers go; the client has taken the first r. */
  ghost predicate Ahead(s: Net, file: bytes, cb: nat, m: nat, r: nat) {
    var b, w := s.server.opts.blksize, s.server.opts.windowsize;
    && 0 < b && 0 < w && m <= r <= Min(m + w, Total(|file|, b))
    && Listening(s.client, cb)
    && s.taken == r && s.lost <= r && s.client.file == Kept(file, b, s.lost, r) && s.client.blockNum == Wire(r)
    && Logged(s.log, file, b, Min(m + w, Total(|file|, b)))
    && (m + w < Total(|file|, b) ==> Sending(s, file, m + w))
  }

  ghost predicate Sending(s: Net, file: bytes, sent: nat) {
    s.registered && s.server.phase.Send? && SenderOk(s.server, file) && |s.log| == s.server.totalPackets == sent
  }

  // ---- The server's windows --------------------------------------------------------------

  /** A window is full up to the end of the file or of the numbers. */
  lemma FullWindow(t: Core, file: bytes, t': Core, ps: seq<Packet>)
    requires SenderOk(t, file) && t.phase.Send? && t.totalPackets < Total(|file|, t.opts.blksize)
    requires WindowOf(t, file, 0, t', ps)
    ensures var b, m, w := t.opts.blksize, t.totalPackets, t.opts.windowsize;
            var total := Total(|file|, b);
            && Min(w, total - m) <= |ps|
            && (forall j :: 0 <= j < Min(w, total - m) ==> ps[j] == Data(Wire(m + j + 1), Block(file, b, m + j + 1)))
            && (m + w < total ==> t'.phase.Send? && SenderOk(t', file) && |ps| == w && t'.totalPackets == m + w)
  {
    hide BlockCount, Wire, Block;
    var b, m, w := t.opts.blksize, t.totalPackets, t.opts.windowsize;
    if m + w < Total(|file|, b) {
      BlockCounts(|file|, b, m + w);
      assert WindowLeft(t, file, 0) == w;
      assert !ReachesEnd(t, file, 0, w);
    }
  }

  ghost predicate WindowFollows(t: Core, file: bytes, log: seq<Packet>, t': Core, ps: seq<Packet>)
    requires 0 < t.opts.blksize
  {
    var m, w := t.totalPackets, t.opts.windowsize;
    && Logged(log + ps, file, t.opts.blksize, Min(m + w, Total(|file|, t.opts.blksize)))
    && (m + w < Total(|file|, t.opts.blksize) ==>
          t'.phase.Send? && SenderOk(t', file) && |log + ps| == t'.totalPackets == m + w)
  }

  /** The server, after an ACK that lets it go on. */
  lemma SendsWindow(t: Core, file: bytes, log: seq<Packet>)
    requires SenderOk(t, file) && t.phase.Send? && |log| == t.totalPackets < Total(|file|, t.opts.blksize)
    requires Logged(log, file, t.opts.blksize, |log|)
    ensures var (t', ps) := SendLoop(t, file, 0);
            t'.opts == t.opts && WindowFollows(t, file, log, t', ps)
  {
    hide SendLoop, WindowOf, Wire, Block, BlockCount;
    WindowSent(t, file, 0);
    SendLoopKeepsOpts(t, file, 0);
    var r := SendLoop(t, file, 0);
    FullWindow(t, file, r.0, r.1);
    LogGrows(log, r.1, file, t.opts.blksize, Min(t.opts.windowsize, Total(|file|, t.opts.blksize) - |log|));
  }

  lemma LogGrows(log: seq<Packet>, ps: seq<Packet>, file: bytes, b: nat, count: nat)
    requires Logged(log, file, b, |log|) && count <= |ps|
    requires forall j :: 0 <= j < count ==> ps[j] == Data(Wire(|log| + j + 1), Block(file, b, |log| + j + 1))
    ensures Logged(log + ps, file, b, |log| + count)
  {
    hide Wire, Block;
    var all := log + ps;
    forall i | |log| <= i < |log| + count ensures all[i] == Data(Wire(i + 1), Block(file, b, i + 1)) {
      var j := i - |log|;
      assert all[i] == ps[j] && |log| + j + 1 == i + 1;
    }
  }

  // ---- One event after the other -----------------------------------------------------------

  lemma TakesNext(s: Net, file: bytes, cb: nat, m: nat, r: nat)
    requires Ahead(s, file, cb, m, r) && r < Min(m + s.server.opts.windowsize, Total(|file|, s.server.opts.blksize))
    ensures var b := s.server.opts.blksize;
            var s' := Step(s, file, DeliverToClient(r));
            && s'.lost == s.lost && s'.oacks == s.oacks && s'.server == s.server
            && (|Block(file, b, r + 1)| >= cb ==> Ahead(s', file, cb, m, r + 1))
            && (|Block(file, b, r + 1)| < cb ==>
                  s'.client.status.Resolved? && s'.client.file == Kept(file, b, s.lost, r + 1))
  {
    hide Wire, Block, BlockCount, Kept, SenderOk, GetData;
    var b := s.server.opts.blksize;
    assert s.log[r] == Data(Wire(r + 1), Block(file, b, r + 1));
    GetsNext(s.client, file, b, r);
    ExtendKept(file, b, s.lost, r);
    BlockSizes(file, b, r + 1);
  }

  /** The last block of the window again makes the client acknowledge it, if it has not. */
  lemma AcksAgain(s: Net, file: bytes, cb: nat, m: nat)
    requires Ahead(s, file, cb, m, m + s.server.opts.windowsize)
    ensures var r := m + s.server.opts.windowsize;
            var s' := Step(s, file, DeliverToClient(r - 1));
            && Ahead(s', file, cb, m, r) && Wire(r) in s'.acks
            && s'.lost == s.lost && s'.oacks == s.oacks && s'.server == s.server
  {
    hide Block, BlockCount, Kept, SenderOk;
    var r := m + s.server.opts.windowsize;
    assert s.log[r - 1].block == Wire(r);
    BlockNumberingAgrees(r);
    BlockNumberingAgrees(r - 1);
    assert Wire(r) != ClientExpected(Wire(r));
    assert Wire(r) in Acked([Ack(Wire(r))]);
  }

  lemma NextWindow(s: Net, file: bytes, cb: nat, m: nat)
    requires Ahead(s, file, cb, m, m + s.server.opts.windowsize)
    requires m + s.server.opts.windowsize < Total(|file|, s.server.opts.blksize)
    requires Wire(m + s.server.opts.windowsize) in s.acks
    ensures var r := m + s.server.opts.windowsize;
            var s' := Step(s, file, DeliverAck(Wire(r)));
            Ahead(s', file, cb, r, r) && s'.lost == s.lost && s'.oacks == s.oacks && s'.server.opts == s.server.opts
  {
    hide SendLoop, Wire, Block, BlockCount, Kept;
    var r := m + s.server.opts.windowsize;
    BlockNumberingAgrees(r);
    var t1 := HandleAck(s.server, Wire(r)).0;
    assert t1 == s.server.(lastAcked := Wire(r));
    SendsWindow(t1, file, s.log);
  }

  lemma RunConcat(s: Net, file: bytes, es: seq<Event>, fs: seq<Event>)
    ensures Run(s, file, es + fs) == Run(Run(s, file, es), file, fs)
    decreases |es|
  {
    hide Step;
    if es == [] {
      assert es + fs == fs;
    } else {
      assert (es + fs)[1..] == es[1..] + fs;
      RunConcat(Step(s, file, es[0]), file, es[1..], fs);
    }
  }

  lemma RunOne(s: Net, file: bytes, e: Event, es: seq<Event>)
    ensures Run(s, file, [e] + es) == Run(Step(s, file, e), file, es)
    ensures Run(s, file, [e]) == Step(s, file, e)
  {
    hide Step;
    assert ([e] + es)[1..] == es;
    assert [e][1..] == [];
  }

  lemma RunTwo(s: Net, file: bytes, d: Event, e: Event)
    ensures Run(s, file, [d, e]) == Step(Step(s, file, d), file, e)
  {
    hide Step;
    assert [d, e] == [d] + [e];
    RunOne(s, file, d, [e]);
    RunOne(Step(s, file, d), file, e, []);
  }

  /** The transfer goes on without a mishap until the client has `goal` blocks. */
  lemma {:induction false} Reaches(s: Net, file: bytes, cb: nat, m: nat, r: nat, goal: nat) returns (es: seq<Event>, m': nat)
    requires Ahead(s, file, cb, m, r) && r <= goal <= Total(|file|, s.server.opts.blksize)
    requires forall k :: 1 <= k <= goal ==> |Block(file, s.server.opts.blksize, k)| >= cb
    ensures var s' := Run(s, file, es);
            && Ahead(s', file, cb, m', goal)
            && s'.lost == s.lost && s'.oacks == s.oacks && s'.server.opts == s.server.opts
    decreases goal - r, r - m
  {
    hide Ahead, Step, Block, BlockCount;
    AheadBounds(s, file, cb, m, r);
    if r == goal {
      es, m' := [], m;
    } else {
      var s1: Net;
      var start: seq<Event>;
      if r == m + s.server.opts.windowsize {
        AcksAgain(s, file, cb, m);
        NextWindow(Step(s, file, DeliverToClient(r - 1)), file, cb, m);
        start := [DeliverToClient(r - 1), DeliverAck(Wire(r))];
        RunTwo(s, file, start[0], start[1]);
        s1 := Run(s, file, start);
        es, m' := Reaches(s1, file, cb, r, r, goal);
      } else {
        TakesNext(s, file, cb, m, r);
        start := [DeliverToClient(r)];
        RunOne(s, file, start[0], []);
        s1 := Run(s, file, start);
        es, m' := Reaches(s1, file, cb, m, r + 1, goal);
      }
      RunConcat(s, file, start, es);
      es := start + es;
    }
  }

  lemma AheadBounds(s: Net, file: bytes, cb: nat, m: nat, r: nat)
    requires Ahead(s, file, cb, m, r)
    ensures var b, w := s.server.opts.blksize, s.server.opts.windowsize;
            0 < b && 0 < w && m <= r <= Min(m + w, Total(|file|, b))
  {
  }

  // ---- The beginning -----------------------------------------------------------------------

  /** The OACK opens the client's file, and its ACK(0) starts the server. */
  lemma OackArrives(file: bytes, opts: Opts, wrap: bool, requested: Opts, copies: nat)
    requires Acceptable(opts) && copies > 0
    ensures var s := Step(Start(file, opts, wrap, requested, true, copies), file, DeliverOack);
            && s.client == NewGetter(requested).(validated := Some(opts), isOpen := true)
            && s.acks == {0} && s.log == [] && s.registered && s.oacks == copies - 1 && s.taken == s.lost == 0
            && s.server == AdvanceSend(InitRRQ(Fresh(true, wrap, opts), true)).0
            && HandleAck(s.server, 0).0 == s.server
  {
    hide ValidateOptions, ValidatedToRaw;
    ValidateRaw(opts);
    assert Acked([Ack(0)]) == {0};
  }

  lemma Begins(file: bytes, opts: Opts, wrap: bool, requested: Opts, withOptions: bool, copies: nat)
    returns (es: seq<Event>)
    requires Served(opts, withOptions) && file != [] && (withOptions ==> copies > 0)
    ensures var s := Run(Start(file, opts, wrap, requested, withOptions, copies), file, es);
            && Ahead(s, file, ClientBlock(opts, requested, withOptions), 0, 0)
            && s.server.opts == opts && s.lost == 0 && s.oacks == if withOptions then copies - 1 else 0
  {
    hide SendLoop, Wire, Block, SenderOk, Kept;
    var s := Start(file, opts, wrap, requested, withOptions, copies);
    var t := AdvanceSend(InitRRQ(Fresh(true, wrap, opts), withOptions)).0;
    FreshIsOk(file, opts, wrap, withOptions);
    BlockCounts(|file|, opts.blksize, 0);
    SendsWindow(t, file, []);
    var ps := SendLoop(t, file, 0).1;
    assert [] + ps == ps;
    ExtendKept(file, opts.blksize, 0, 0);
    if withOptions {
      OackArrives(file, opts, wrap, requested, copies);
      es := [DeliverOack, DeliverAck(0)];
      RunTwo(s, file, DeliverOack, DeliverAck(0));
    } else {
      es := [];
    }
  }

  // ---- Past 65535 blocks -------------------------------------------------------------------

  /** The first 65535 blocks are there, and none of them ends the client's transfer. */
  ghost predicate Endless(file: bytes, b: nat, cb: nat) {
    0 < b && WIRE_MAX <= BlockCount(|file|, b)
    && forall k :: 1 <= k <= WIRE_MAX ==> |Block(file, b, k)| >= cb
  }

  lemma EndlessIff(file: bytes, b: nat, cb: nat)
    requires 0 < b && cb <= b
    ensures !Fits(|file|, b, cb) ==> Endless(file, b, cb)
  {
    hide BlockCount, Block;
    if !Fits(|file|, b, cb) {
      BlockCounts(|file|, b, WIRE_MAX - 1);
      forall k | 1 <= k <= WIRE_MAX ensures |Block(file, b, k)| >= cb {
        BlockSizes(file, b, k);
        if k < WIRE_MAX {
          MulMono(k, WIRE_MAX - 1, b);
        }
      }
    }
  }

  /** The client has k blocks, right or wrong, and can be given the first 65535 again. */
  ghost predicate Beyond(s: Net, file: bytes, b: nat, cb: nat, k: nat) {
    && Endless(file, b, cb) && WIRE_MAX <= k && Logged(s.log, file, b, WIRE_MAX)
    && Listening(s.client, cb) && s.client.blockNum == Wire(k)
  }

  /** A stale block is taken for the next one. */
  lemma TakesStale(s: Net, file: bytes, b: nat, cb: nat, k: nat)
    requires Beyond(s, file, b, cb, k)
    ensures var s' := Step(s, file, DeliverToClient(k % WIRE_MAX));
            Beyond(s', file, b, cb, k + 1) && |s'.client.file| > |s.client.file|
  {
    hide Block, BlockCount, GetData;
    var i := k % WIRE_MAX;
    assert (i + 1) - (k + 1) == -(k / WIRE_MAX) * WIRE_MAX;
    WireAliases(i + 1, k + 1);
    GetsStale(s.client, Block(file, b, i + 1), k);
    BlockSizes(file, b, i + 1);
  }

  lemma GetsStale(c: Getter, next: bytes, k: nat)
    requires c.status.Running? && c.blockNum == Wire(k) && OpenOnData(c).file == c.file
    requires |next| >= BlockSize(OpenOnData(c).validated)
    ensures var c' := GetData(c, Wire(k + 1), next).0;
            && c'.status.Running? && c'.isOpen && c'.validated == OpenOnData(c).validated
            && c'.file == c.file + next && c'.blockNum == Wire(k + 1)
  {
    BlockNumberingAgrees(k);
  }

  lemma {:induction false} Overruns(s: Net, file: bytes, b: nat, cb: nat, k: nat) returns (es: seq<Event>)
    requires Beyond(s, file, b, cb, k)
    ensures |Run(s, file, es).client.file| > |file|
    decreases |file| + 1 - |s.client.file|
  {
    hide Beyond, Step;
    if |s.client.file| > |file| {
      es := [];
    } else {
      var e := DeliverToClient(k % WIRE_MAX);
      TakesStale(s, file, b, cb, k);
      es := Overruns(Step(s, file, e), file, b, cb, k + 1);
      RunOne(s, file, e, es);
      es := [e] + es;
    }
  }

  /** From the beginning, the client's file is made longer than the server's. */
  lemma TooLong(file: bytes, opts: Opts, wrap: bool, requested: Opts, withOptions: bool, copies: nat)
    returns (es: seq<Event>)
    requires Served(opts, withOptions) && (withOptions ==> copies > 0)
    requires Endless(file, opts.blksize, ClientBlock(opts, requested, withOptions))
    ensures !Safe(Run(Start(file, opts, wrap, requested, withOptions, copies), file, es), file)
  {
    hide Start, Step, Ahead, Endless, Block;
    var b, cb := opts.blksize, ClientBlock(opts, requested, withOptions);
    var s := Start(file, opts, wrap, requested, withOptions, copies);
    EndlessIsThere(file, b, cb);
    var begin := Begins(file, opts, wrap, requested, withOptions, copies);
    var s1 := Run(s, file, begin);
    var good, m := Reaches(s1, file, cb, 0, 0, WIRE_MAX);
    var s2 := Run(s1, file, good);
    AheadIsBeyond(s2, file, b, cb, m);
    var bad := Overruns(s2, file, b, cb, WIRE_MAX);
    es := begin + (good + bad);
    RunConcat(s, file, begin, good + bad);
    RunConcat(s1, file, good, bad);
  }

  lemma EndlessIsThere(file: bytes, b: nat, cb: nat)
    requires Endless(file, b, cb)
    ensures 0 < b && file != [] && Total(|file|, b) == WIRE_MAX
    ensures forall k :: 1 <= k <= WIRE_MAX ==> |Block(file, b, k)| >= cb
  {
  }

  lemma AheadIsBeyond(s: Net, file: bytes, b: nat, cb: nat, m: nat)
    requires Ahead(s, file, cb, m, WIRE_MAX) && s.server.opts.blksize == b && Endless(file, b, cb)
    ensures Beyond(s, file, b, cb, WIRE_MAX)
  {
    hide Block, BlockCount, Kept, SenderOk, Wire;
  }

  // ---- The result --------------------------------------------------------------------------

  /** A client that goes by larger blocks than the server takes the first for the last. */
  lemma FirstForLast(file: bytes, opts: Opts, wrap: bool, requested: Opts) returns (es: seq<Event>)
    requires Served(opts, false) && requested.blksize > opts.blksize && |file| > opts.blksize
    ensures !Safe(Run(Start(file, opts, wrap, requested, false, 1), file, es), file)
  {
    hide Start, Step, Wire, Block, SenderOk, Ahead;
    var b := opts.blksize;
    var s := Start(file, opts, wrap, requested, false, 1);
    var begin := Begins(file, opts, wrap, requested, false, 1);
    var s1 := Run(s, file, begin);
    FirstIsNext(s1, file, requested.blksize);
    BlockCounts(|file|, b, 0);
    BlockSizes(file, b, 1);
    TakesNext(s1, file, requested.blksize, 0, 0);
    es := begin + [DeliverToClient(0)];
    RunOne(s1, file, DeliverToClient(0), []);
    RunConcat(s, file, begin, [DeliverToClient(0)]);
    ExtendKept(file, b, 0, 1);
  }

  lemma FirstIsNext(s: Net, file: bytes, cb: nat)
    requires Ahead(s, file, cb, 0, 0) && file != []
    ensures 0 < Min(s.server.opts.windowsize, Total(|file|, s.server.opts.blksize))
  {
    BlockCounts(|file|, s.server.opts.blksize, 0);
  }

  /** A download is safe against every loss, repetition and reordering exactly when the
      file is shorter than 65535 blocks: not one octet more.  That is, when the two ends go
      by the same blocks; a client that goes by smaller ones - which no OACK prevents - has
      room for one of its own blocks less than one of the server's at the end, and one that
      goes by larger ones for a single block. */
  lemma DownloadSafeIff(file: bytes, opts: Opts, wrap: bool, requested: Opts, withOptions: bool)
    requires Served(opts, withOptions)
    ensures (forall es: seq<Event> :: Safe(Run(Start(file, opts, wrap, requested, withOptions, 1), file, es), file))
            <==> Fits(|file|, opts.blksize, ClientBlock(opts, requested, withOptions))
    ensures Agreed(opts, requested, withOptions) ==>
              (Fits(|file|, opts.blksize, ClientBlock(opts, requested, withOptions)) <==> |file| < WIRE_MAX * opts.blksize)
  {
    hide Run, Start, Inv, Endless;
    var s := Start(file, opts, wrap, requested, withOptions, 1);
    var b, cb := opts.blksize, ClientBlock(opts, requested, withOptions);
    if Fits(|file|, b, cb) {
      StartInv(file, opts, wrap, requested, withOptions, 1);
      forall es: seq<Event> ensures Safe(Run(s, file, es), file) {
        FitsAllNear(s, file, es, cb);
        DownloadSafeWhenNear(file, opts, wrap, requested, withOptions, es);
      }
    } else if cb > b {
      var es := FirstForLast(file, opts, wrap, requested);
    } else {
      EndlessIff(file, b, cb);
      var es := TooLong(file, opts, wrap, requested, withOptions, 1);
    }
    FitsEqual(|file|, b);
  }

  /** A server that sends no OACK uses blocks of 512, while the client goes by the size it
      asked for: how large the file may then be. */
  lemma WithoutOackSafeIff(file: bytes, wrap: bool, requested: Opts)
    ensures (forall es: seq<Event> :: Safe(Run(Start(file, DEFAULT_OPTS, wrap, requested, false, 1), file, es), file))
            <==> if requested.blksize > 512 then |file| <= 512
                 else |file| < 65534 * 512 + (if requested.blksize == 0 then 1 else requested.blksize)
  {
    hide Run, Start;
    DownloadSafeIff(file, DEFAULT_OPTS, wrap, requested, false);
  }
}
