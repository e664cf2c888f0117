/** What a second OACK does to a download: the client opens and truncates its file again,
    but goes on waiting for the block after the last it had. */
module DownloadRepeats {
  import opened Bytes
  import opened Blocks
  import opened Options
  import opened TftpServer
  import opened Download
  import opened DownloadLimit

  /** Every block is the same as the first, and whole. */
  predicate Periodic(file: bytes, b: nat)
    requires 0 < b
  {
    |file| % b == 0 && forall i :: b <= i < |file| ==> file[i] == file[i - b]
  }

  /** A file that a truncation in the middle of its transfer cannot spoil. */
  predicate Immune(file: bytes, b: nat)
    requires 0 < b
  {
    |file| <= b || (Periodic(file, b) && |file| < WIRE_MAX * b)
  }

  // ---- Immune files ------------------------------------------------------------------------

  lemma {:induction false} Shifted(file: bytes, b: nat, k: nat, i: nat)
    requires 0 < b && Periodic(file, b) && k * b + i < |file|
    ensures file[k * b + i] == file[i]
    decreases k
  {
    if k > 0 {
      assert k * b == (k - 1) * b + b;
      Shifted(file, b, k - 1, i);
    }
  }

  lemma KeptOfPeriodic(file: bytes, b: nat, from: nat, k: nat)
    requires 0 < b && Periodic(file, b) && from <= k
    ensures Kept(file, b, from, k) <= file
  {
    hide Periodic;
    var kept, first := Kept(file, b, from, k), FirstBlocks(file, b, k);
    if from * b <= |first| {
      forall i | 0 <= i < |kept| ensures kept[i] == file[i] {
        Shifted(file, b, from, i);
        assert kept[i] == first[from * b + i] == file[from * b + i];
      }
    }
  }

  lemma ImmuneSafe(s: Net, file: bytes)
    requires Inv(s, file, s.server.opts.blksize) && 0 < s.server.opts.blksize && Immune(file, s.server.opts.blksize)
    ensures Safe(s, file)
  {
    hide Inv, Periodic, Safe;
    var b := s.server.opts.blksize;
    if 0 < |file| < b {
      NothingLost(s, file);
      InvSafe(s, file, b);
    } else {
      WholeIsPeriodic(file, b);
      PeriodicSafe(s, file);
    }
  }

  /** Of a file of whole blocks none is taken for the last. */
  lemma PeriodicSafe(s: Net, file: bytes)
    requires Inv(s, file, s.server.opts.blksize) && 0 < s.server.opts.blksize && Periodic(file, s.server.opts.blksize)
    ensures Safe(s, file)
  {
    hide Wire, Block, BlockCount, Kept, ServerSide, Opening;
    var b := s.server.opts.blksize;
    KeptOfPeriodic(file, b, s.lost, s.taken);
    if s.taken > 0 {
      BlockSizes(file, b, s.taken);
      AllWhole(|file|, b, s.taken);
    }
  }

  /** A file shorter than a block has gone through before a second OACK can truncate it. */
  lemma NothingLost(s: Net, file: bytes)
    requires Inv(s, file, s.server.opts.blksize) && |file| < s.server.opts.blksize
    ensures s.lost == 0
  {
    hide Wire, Block, BlockCount, Kept, ServerSide, Opening;
    var b := s.server.opts.blksize;
    if s.lost > 0 {
      BlockSizes(file, b, s.lost);
      MulMono(1, s.lost, b);
    }
  }

  lemma AllWhole(size: nat, b: nat, k: nat)
    requires 0 < b && size % b == 0 && k <= BlockCount(size, b)
    ensures k * b <= size
  {
    WholeBlocks(size, b, k);
  }

  lemma WholeIsPeriodic(file: bytes, b: nat)
    requires 0 < b && Immune(file, b) && !(0 < |file| < b)
    ensures Periodic(file, b)
  {
  }

  // ---- All others --------------------------------------------------------------------------

  /** The client has the first block, is then told to start again, and is given the rest. */
  lemma LosesFirst(file: bytes, opts: Opts, wrap: bool, requested: Opts, copies: nat) returns (es: seq<Event>)
    requires Served(opts, true) && copies >= 2
    requires opts.blksize < |file| < WIRE_MAX * opts.blksize && !Periodic(file, opts.blksize)
    ensures !Safe(Run(Start(file, opts, wrap, requested, true, copies), file, es), file)
  {
    hide Start, Step, Ahead, Block, BlockCount, Kept, Wire, Periodic;
    var b := opts.blksize;
    var s := Start(file, opts, wrap, requested, true, copies);
    var begin := Begins(file, opts, wrap, requested, true, copies);
    var s1 := Run(s, file, begin);
    BlockCounts(|file|, b, 0);
    BlockCounts(|file|, b, 1);
    BlockSizes(file, b, 1);
    BlockCounts(|file|, b, WIRE_MAX);
    FirstIsNext(s1, file, b);
    TakesNext(s1, file, b, 0, 0);
    var s2 := Step(s1, file, DeliverToClient(0));
    StartsAgain(s2, file);
    var s3 := Step(s2, file, DeliverOack);
    RunTwo(s1, file, DeliverToClient(0), DeliverOack);
    var rest := TakesRest(s3, file);
    es := begin + ([DeliverToClient(0), DeliverOack] + rest);
    RunConcat(s, file, begin, [DeliverToClient(0), DeliverOack] + rest);
    RunConcat(s1, file, [DeliverToClient(0), DeliverOack], rest);
  }

  lemma StartsAgain(s: Net, file: bytes)
    requires Ahead(s, file, s.server.opts.blksize, 0, 1) && s.oacks > 0 && Acceptable(s.server.opts)
    requires s.lost == 0 && |Block(file, s.server.opts.blksize, 1)| > 0
    ensures var s' := Step(s, file, DeliverOack);
            Ahead(s', file, s.server.opts.blksize, 0, 1) && s'.lost == 1 && s'.server == s.server
  {
    hide Wire, BlockCount, SenderOk, ValidateOptions, ValidatedToRaw, Block;
    var b := s.server.opts.blksize;
    ValidateRaw(s.server.opts);
    ExtendKept(file, b, 0, 0);
    ExtendKept(file, b, 1, 1);
  }

  /** What the client then has in the end is not the beginning of the file, or it is taken
      for all of it. */
  lemma TakesRest(s: Net, file: bytes) returns (es: seq<Event>)
    requires Ahead(s, file, s.server.opts.blksize, 0, 1) && s.lost == 1 && 0 < s.server.opts.blksize
    requires s.server.opts.blksize < |file| < WIRE_MAX * s.server.opts.blksize && !Periodic(file, s.server.opts.blksize)
    ensures !Safe(Run(s, file, es), file)
  {
    hide Step, Block, BlockCount, Kept, Wire, Periodic, SenderOk, Logged;
    var b := s.server.opts.blksize;
    var n := BlockCount(|file|, b);
    BlockCounts(|file|, b, 1);
    BlockCounts(|file|, b, WIRE_MAX);
    forall k | 1 <= k <= n && (k < n || |file| % b == 0) ensures |Block(file, b, k)| >= b {
      BlockSizes(file, b, k);
      if |file| % b == 0 { AllWhole(|file|, b, k); }
    }
    if |file| % b == 0 {
      var m;
      es, m := Reaches(s, file, b, 0, 1, n);
      KeptRest(file, b, n);
    } else {
      var good, m := Reaches(s, file, b, 0, 1, n - 1);
      var s1 := Run(s, file, good);
      LastIsShort(file, b);
      var more, m1 := LastWindow(s1, file, m);
      var s2 := Run(s1, file, more);
      TakesNext(s2, file, b, m1, n - 1);
      es := good + (more + [DeliverToClient(n - 1)]);
      RunConcat(s, file, good, more + [DeliverToClient(n - 1)]);
      RunConcat(s1, file, more, [DeliverToClient(n - 1)]);
      RunOne(s2, file, DeliverToClient(n - 1), []);
      KeptRest(file, b, n);
    }
  }

  /** The window with the last block has been sent. */
  lemma LastWindow(s: Net, file: bytes, m: nat) returns (es: seq<Event>, m': nat)
    requires var b := s.server.opts.blksize; 0 < b && 0 < BlockCount(|file|, b) <= WIRE_MAX
    requires Ahead(s, file, s.server.opts.blksize, m, BlockCount(|file|, s.server.opts.blksize) - 1)
    ensures var s', r := Run(s, file, es), BlockCount(|file|, s.server.opts.blksize) - 1;
            && Ahead(s', file, s.server.opts.blksize, m', r) && r < m' + s'.server.opts.windowsize
            && s'.lost == s.lost && s'.server.opts == s.server.opts
  {
    hide Step, Block, BlockCount, Kept, Wire, SenderOk, Logged;
    var b, r := s.server.opts.blksize, BlockCount(|file|, s.server.opts.blksize) - 1;
    if r < m + s.server.opts.windowsize {
      es, m' := [], m;
    } else {
      AcksAgain(s, file, b, m);
      NextWindow(Step(s, file, DeliverToClient(r - 1)), file, b, m);
      es, m' := [DeliverToClient(r - 1), DeliverAck(Wire(r))], r;
      RunTwo(s, file, es[0], es[1]);
    }
  }

  lemma LastIsShort(file: bytes, b: nat)
    requires 0 < b && |file| % b != 0
    ensures 0 < BlockCount(|file|, b) && |Block(file, b, BlockCount(|file|, b))| < b
  {
    var n := BlockCount(|file|, b);
    WholeBlocks(|file|, b, n);
    BlockSizes(file, b, n);
  }

  lemma KeptRest(file: bytes, b: nat, n: nat)
    requires 0 < b < |file| && n == BlockCount(|file|, b)
    ensures Kept(file, b, 1, n) == file[b..]
    ensures |file| % b == 0 && !Periodic(file, b) ==> !(file[b..] <= file)
  {
    BlockCounts(|file|, b, n);
    assert FirstBlocks(file, b, n) == file;
    if file[b..] <= file {
      forall i | b <= i < |file| ensures file[i] == file[i - b] {
        assert file[i] == file[b..][i - b];
      }
    }
  }

  // ---- The result --------------------------------------------------------------------------

  /** With two or more OACKs - the network may repeat a datagram - a download is safe exactly
      when the file is a single block, or consists of whole blocks that are all alike and
      are fewer than 65535. */
  lemma RepeatedOackSafeIff(file: bytes, opts: Opts, wrap: bool, requested: Opts, copies: nat)
    requires Served(opts, true) && copies >= 2
    ensures (forall es: seq<Event> :: Safe(Run(Start(file, opts, wrap, requested, true, copies), file, es), file))
            <==> Immune(file, opts.blksize)
  {
    hide Run, Start, Inv, Endless, Fits, Periodic;
    var b := opts.blksize;
    var s := Start(file, opts, wrap, requested, true, copies);
    FitsEqual(|file|, b);
    if Immune(file, b) {
      MulMono(1, WIRE_MAX, b);
      assert Fits(|file|, b, b);
      StartInv(file, opts, wrap, requested, true, copies);
      forall es: seq<Event> ensures Safe(Run(s, file, es), file) {
        FitsAllNear(s, file, es, b);
        RunKeepsInv(s, file, es, b);
        RunKeepsOpts(s, file, es);
        ImmuneSafe(Run(s, file, es), file);
      }
    } else if |file| < WIRE_MAX * b {
      var es := LosesFirst(file, opts, wrap, requested, copies);
    } else {
      EndlessIff(file, b, b);
      var es := TooLong(file, opts, wrap, requested, true, copies);
    }
  }
}
