/** How far an upload is safe on a network that may repeat packets: not for a file of one full
    block or more. */
module UploadLimit {
  import opened Bytes
  import opened Blocks
  import opened Options
  import opened Transfer
  import opened Emissions
  import opened TftpServer
  import opened TftpClient
  import opened Upload

  // ---- Files of less than a block ------------------------------------------------------------

  lemma SmallIsNear(s: Net, source: bytes, e: Event)
    requires Inv(s, source) && |source| < s.server.opts.blksize
    ensures Near(s, e) && !Stray(s, e)
  {
    hide Takes;
    var b := s.server.opts.blksize;
    BlockCounts(|source|, b, 1);
    if e.DeliverData? && e.i < |s.log| {
      LogEntry(s, source, e.i);
      MulMono(1, if s.got == 0 then 1 else s.got, b);
    }
  }

  lemma {:induction false} SmallRuns(s: Net, source: bytes, es: seq<Event>)
    requires Inv(s, source) && |source| < s.server.opts.blksize
    ensures AllNear(s, source, es) && NoStray(s, source, es)
    decreases |es|
  {
    hide Inv, Step, Near, Stray;
    if es != [] {
      SmallIsNear(s, source, es[0]);
      StepKeepsInv(s, source, es[0]);
      SmallRuns(Step(s, source, es[0]), source, es[1..]);
    }
  }

  /** The server has acknowledged DATA, and the client has been told so, only when all is done. */
  ghost predicate Truthful(s: Net, source: bytes) {
    && 0 < s.server.opts.blksize
    && var n := BlockCount(|source|, s.server.opts.blksize);
       && (forall j :: 0 <= j < |s.replies| && s.replies[j].Ack? ==> s.got == n)
       && (s.client.status.Resolved? ==> s.got == n)
  }

  lemma StepTruthful(s: Net, source: bytes, e: Event)
    requires Inv(s, source) && Truthful(s, source) && |source| < s.server.opts.blksize
    ensures Truthful(Step(s, source, e), source)
  {
    hide Inv, HandleTransferData, PutMessage, BlockCount, Block;
    SmallIsNear(s, source, e);
    match e
    case DeliverData(i) =>
      if i < |s.log| && s.registered {
        LogIsData(s, source, i);
        HearsData(s, source, i);
        OnlyData(s, Step(s, source, e), source, i);
        if Takes(s, s.log[i]) {
          OneBlockIsAll(s, source);
        } else {
          RefusedEarly(s, source, i);
          RepliesGrow(s.replies, Step(s, source, e).replies);
        }
      }
    case DeliverReply(j) =>
      if j < |s.replies| {
        if s.client.status.Running? {
          HearsReply(s, source, s.replies[j]);
        } else {
          NotListening(s.client, source, s.replies[j]);
        }
      }
    case _ =>
  }

  lemma RepliesGrow(a: seq<Packet>, b: seq<Packet>)
    requires |b| == |a| + 1 && b[..|a|] == a
    ensures forall j :: 0 <= j < |a| ==> b[j] == a[j]
  {
    forall j | 0 <= j < |a| ensures b[j] == a[j] {
      assert b[j] == b[..|a|][j];
    }
  }

  lemma OneBlockIsAll(s: Net, source: bytes)
    requires Inv(s, source) && s.registered && |source| < s.server.opts.blksize
    requires s.got * s.server.opts.blksize < |source|
    ensures s.got + 1 == BlockCount(|source|, s.server.opts.blksize)
  {
    var b := s.server.opts.blksize;
    BlockCounts(|source|, b, 0);
    BlockCounts(|source|, b, 1);
    MulMono(1, if s.got == 0 then 1 else s.got, b);
  }

  lemma {:induction false} RunTruthful(s: Net, source: bytes, es: seq<Event>)
    requires Inv(s, source) && Truthful(s, source) && |source| < s.server.opts.blksize
    ensures Truthful(Run(s, source, es), source) && Run(s, source, es).server.opts == s.server.opts
    decreases |es|
  {
    hide Inv, Truthful, Step;
    if es != [] {
      SmallIsNear(s, source, es[0]);
      StepKeepsInv(s, source, es[0]);
      StepTruthful(s, source, es[0]);
      RunTruthful(Step(s, source, es[0]), source, es[1..]);
    }
  }

  // ---- Files of a block or more --------------------------------------------------------------

  function Times(e: Event, k: nat): seq<Event> {
    if k == 0 then [] else [e] + Times(e, k - 1)
  }

  lemma {:induction false} RunConcat(s: Net, source: bytes, es: seq<Event>, fs: seq<Event>)
    ensures Run(s, source, es + fs) == Run(Run(s, source, es), source, fs)
    decreases |es|
  {
    hide Step;
    if es == [] {
      assert es + fs == fs;
    } else {
      assert (es + fs)[1..] == es[1..] + fs;
      RunConcat(Step(s, source, es[0]), source, es[1..], fs);
    }
  }

  lemma RunOne(s: Net, source: bytes, e: Event)
    ensures Run(s, source, [e]) == Step(s, source, e)
  {
    assert [e][1..] == [];
  }

  /** The server has sent its first answer and heard nothing; the client goes on sending. */
  ghost predicate Unheard(s: Net, source: bytes) {
    && Inv(s, source) && s.registered && s.got == 0 && s.disk == [] && s.client.status.Running?
    && |s.replies| == 1 && (s.replies[0].Oack? || s.replies[0] == Ack(0))
  }

  /** Its first answer, repeated, makes the client send the whole file. */
  lemma {:induction false} SendsAll(s: Net, source: bytes) returns (es: seq<Event>)
    requires Unheard(s, source)
    ensures var e := Run(s, source, es);
            && Unheard(e, source) && e.server == s.server && e.replies == s.replies
            && e.client.blockNum == BlockCount(|source|, s.server.opts.blksize)
    decreases BlockCount(|source|, s.server.opts.blksize) - s.client.blockNum
  {
    hide Emission, BlockCount, PutMessage;
    var b := s.server.opts.blksize;
    if s.client.blockNum == BlockCount(|source|, b) {
      es := [];
    } else {
      var s1 := Step(s, source, DeliverReply(0));
      ReplyKeepsInv(s, source, 0);
      HearsReply(s, source, s.replies[0]);
      BlockCounts(|source|, b, s.client.blockNum);
      var rest := SendsAll(s1, source);
      es := [DeliverReply(0)] + rest;
      assert es[1..] == rest;
    }
  }

  /** The first block has come and was full, and comes again. */
  ghost predicate FirstTaken(s: Net, source: bytes) {
    && Inv(s, source) && s.registered && s.got == 1 && s.log != [] && s.server.opts.blksize <= |source|
  }

  lemma TakesFirst(s: Net, source: bytes)
    requires Inv(s, source) && s.registered && s.got == 0 && s.log != [] && s.server.opts.blksize <= |source|
    ensures var s' := Step(s, source, DeliverData(0));
            FirstTaken(s', source) && |s'.disk| == |s.disk| + s.server.opts.blksize && s'.client == s.client
            && s'.server.opts == s.server.opts
  {
    hide Block, BlockCount, Emission, Inv;
    LogIsData(s, source, 0);
    TakesNext(s, source, 0);
    HearsData(s, source, 0);
    DataKeepsInv(s, source, 0);
    OnlyData(s, Step(s, source, DeliverData(0)), source, 0);
    FullBlock(source, s.server.opts.blksize);
    InvOpts(s, source);
  }

  lemma InvOpts(s: Net, source: bytes)
    requires Inv(s, source)
    ensures 0 < s.server.opts.blksize
    ensures Step(s, source, DeliverData(0)).log == s.log
  {
  }

  lemma FullBlock(source: bytes, b: nat)
    requires b <= |source|
    ensures |Block(source, b, 1)| == b
  {
  }

  lemma TakenAgain(s: Net, source: bytes)
    requires FirstTaken(s, source)
    ensures var s' := Step(s, source, DeliverData(0));
            && FirstTaken(s', source) && |s'.disk| == |s.disk| + s.server.opts.blksize && s'.client == s.client
            && s'.server.opts == s.server.opts && s'.replies == s.replies + [Ack(1)]
  {
    hide BlockCount, Emission, Block;
    LogEntry(s, source, 0);
    TakesNext(s, source, 0);
    DataKeepsInv(s, source, 0);
    FullBlock(source, s.server.opts.blksize);
    BlockNumberingAgrees(1);
    BlockNumberingAgrees(2);
    assert s.server.blockNum == 2;
  }

  lemma {:induction false} Swells(s: Net, source: bytes, k: nat)
    requires FirstTaken(s, source)
    ensures var e := Run(s, source, Times(DeliverData(0), k));
            && FirstTaken(e, source) && |e.disk| == |s.disk| + k * s.server.opts.blksize && e.client == s.client
            && e.server.opts == s.server.opts
            && (k > 0 ==> e.replies != [] && e.replies[|e.replies| - 1] == Ack(1))
    decreases k
  {
    hide FirstTaken, Step;
    if k > 0 {
      TakenAgain(s, source);
      Swells(Step(s, source, DeliverData(0)), source, k - 1);
      assert Times(DeliverData(0), k)[1..] == Times(DeliverData(0), k - 1);
      assert k * s.server.opts.blksize == (k - 1) * s.server.opts.blksize + s.server.opts.blksize;
    }
  }

  /** The whole file is sent, and its first block delivered until the server's is longer than it. */
  lemma Overflows(s: Net, source: bytes) returns (es: seq<Event>)
    requires Unheard(s, source) && s.server.opts.blksize <= |source|
    ensures var e := Run(s, source, es);
            && Inv(e, source) && |e.disk| > |source| && e.client.status.Running? && e.client.offset >= |source|
            && e.replies != [] && e.replies[|e.replies| - 1] == Ack(1)
  {
    hide Step, Inv, BlockCount, Emission;
    var b := s.server.opts.blksize;
    InvOpts(s, source);
    var sends := SendsAll(s, source);
    var s1 := Run(s, source, sends);
    SentAll(s1, source);
    var s2 := Step(s1, source, DeliverData(0));
    TakesFirst(s1, source);
    var k := |source| / b + 1;
    Swells(s2, source, k);
    WholeBlocks(|source|, b, k);
    es := sends + ([DeliverData(0)] + Times(DeliverData(0), k));
    RunConcat(s, source, sends, [DeliverData(0)] + Times(DeliverData(0), k));
    RunConcat(s1, source, [DeliverData(0)], Times(DeliverData(0), k));
    RunOne(s1, source, DeliverData(0));
  }

  lemma SentAll(s: Net, source: bytes)
    requires Inv(s, source) && s.client.blockNum == BlockCount(|source|, s.server.opts.blksize)
    ensures s.client.offset >= |source| && (source != [] ==> s.log != [])
  {
    BlockCounts(|source|, s.server.opts.blksize, s.client.blockNum);
    BlockCounts(|source|, s.server.opts.blksize, 0);
  }

  /** An ACK that arrives once everything has been sent. */
  lemma Resolves(s: Net, source: bytes, j: nat)
    requires Inv(s, source) && s.client.status.Running? && s.client.offset >= |source| && j < |s.replies| && s.replies[j].Ack?
    ensures var e := Run(s, source, [DeliverReply(j)]); e.client.status.Resolved? && e.disk == s.disk
  {
    hide PutMessage, Inv;
    RunOne(s, source, DeliverReply(j));
    HearsReply(s, source, s.replies[j]);
  }

  // ---- The limits ----------------------------------------------------------------------------

  lemma StartUnheard(source: bytes, opts: Opts, wrap: bool, requested: Opts, withOptions: bool)
    requires Agreed(opts, requested, withOptions)
    ensures var s := Start(opts, wrap, requested, withOptions);
            && Unheard(s, source) && s.server.opts == opts
            && (if withOptions then s.replies[0].Oack? else s.replies[0] == Ack(0))
  {
    StartInv(source, opts, wrap, requested, withOptions);
  }

  /** What the server has of a file is its beginning, in every run, exactly when the file is
      shorter than one block: a full block can come again, and is appended again. */
  lemma UploadPrefixSafeIff(source: bytes, opts: Opts, wrap: bool, requested: Opts, withOptions: bool)
    requires Agreed(opts, requested, withOptions)
    ensures (forall es: seq<Event> :: Run(Start(opts, wrap, requested, withOptions), source, es).disk <= source)
            <==> |source| < opts.blksize
  {
    hide Run, Start, Inv, Unheard;
    var s := Start(opts, wrap, requested, withOptions);
    StartUnheard(source, opts, wrap, requested, withOptions);
    if |source| < opts.blksize {
      forall es: seq<Event> ensures Run(s, source, es).disk <= source {
        SmallIsPrefix(source, opts, wrap, requested, withOptions, es);
      }
    } else {
      var es := Overflows(s, source);
      assert !(Run(s, source, es).disk <= source);
    }
  }

  lemma SmallIsPrefix(source: bytes, opts: Opts, wrap: bool, requested: Opts, withOptions: bool, es: seq<Event>)
    requires Agreed(opts, requested, withOptions) && |source| < opts.blksize
    ensures Run(Start(opts, wrap, requested, withOptions), source, es).disk <= source
  {
    hide Run, Start, Inv;
    var s := Start(opts, wrap, requested, withOptions);
    StartUnheard(source, opts, wrap, requested, withOptions);
    StartExact(source, opts, wrap, requested, withOptions);
    SmallRuns(s, source, es);
    RunExact(s, source, es);
  }

  /** A `put` that resolves has delivered its file, in every run, exactly when the file is
      shorter than one block and the server sent an OACK, or is empty: an ACK, whatever its
      number, ends the transfer once everything has been sent. */
  lemma UploadResolvedSafeIff(source: bytes, opts: Opts, wrap: bool, requested: Opts, withOptions: bool)
    requires Agreed(opts, requested, withOptions)
    ensures (forall es: seq<Event> ::
               var e := Run(Start(opts, wrap, requested, withOptions), source, es);
               e.client.status.Resolved? ==> e.disk == source)
            <==> if withOptions then |source| < opts.blksize else source == []
  {
    hide Run, Start, Inv;
    var s := Start(opts, wrap, requested, withOptions);
    StartUnheard(source, opts, wrap, requested, withOptions);
    if if withOptions then |source| < opts.blksize else source == [] {
      forall es: seq<Event> ensures Run(s, source, es).client.status.Resolved? ==> Run(s, source, es).disk == source {
        SmallIsDelivered(source, opts, wrap, requested, withOptions, es);
      }
    } else {
      var es := ResolvesWrongly(s, source);
    }
  }

  lemma SmallIsDelivered(source: bytes, opts: Opts, wrap: bool, requested: Opts, withOptions: bool, es: seq<Event>)
    requires Agreed(opts, requested, withOptions) && if withOptions then |source| < opts.blksize else source == []
    ensures var e := Run(Start(opts, wrap, requested, withOptions), source, es);
            e.client.status.Resolved? ==> e.disk == source
  {
    hide Run, Start, Inv;
    var s := Start(opts, wrap, requested, withOptions);
    StartUnheard(source, opts, wrap, requested, withOptions);
    StartExact(source, opts, wrap, requested, withOptions);
    SmallRuns(s, source, es);
    RunExact(s, source, es);
    RunTruthful(s, source, es) by { StartTruthful(s, source); }
    WholeFile(source, opts.blksize);
  }

  lemma StartTruthful(s: Net, source: bytes)
    requires Unheard(s, source) && (s.replies[0].Oack? || source == [])
    ensures Truthful(s, source)
  {
  }

  /** It resolves with nothing delivered, by ACK(0) again, or with too much. */
  lemma ResolvesWrongly(s: Net, source: bytes) returns (es: seq<Event>)
    requires Unheard(s, source) && if s.replies[0].Oack? then s.server.opts.blksize <= |source| else source != []
    ensures var e := Run(s, source, es); e.client.status.Resolved? && e.disk != source
  {
    hide Run, Inv;
    if s.replies[0].Oack? {
      var before := Overflows(s, source);
      var s1 := Run(s, source, before);
      var last := [DeliverReply(|s1.replies| - 1)];
      Resolves(s1, source, |s1.replies| - 1);
      RunConcat(s, source, before, last);
      es := before + last;
    } else {
      var before := SendsAll(s, source);
      var s1 := Run(s, source, before);
      SentAll(s1, source);
      Resolves(s1, source, 0);
      RunConcat(s, source, before, [DeliverReply(0)]);
      es := before + [DeliverReply(0)];
    }
  }
}
