/** How much of a download is under way: windows and duplicate ACKs (section 4 of RFC 7440
    wants one window at a time). */
module ServerWindows {
  import opened Bytes
  import opened Blocks
  import opened Options
  import opened Emissions
  import opened TftpServer
  import opened ServerRuns

  /** The transfer after the first k ACKs. */
  function After(s: Serving, file: bytes, ns: seq<nat>, k: nat): Serving
    requires k <= |ns|
  {
    OnAcks(s, file, ns[..k])
  }

  /** How many blocks the peer has acknowledged: up to the last ACK that named the block sent
      last. */
  function Acknowledged(s: Serving, file: bytes, ns: seq<nat>, k: nat): nat
    requires k <= |ns|
  {
    if k == 0 then 0
    else
      var t := After(s, file, ns, k - 1).t;
      if ns[k - 1] == t.blockNum then t.totalPackets else Acknowledged(s, file, ns, k - 1)
  }

  function UnderWay(s: Serving, file: bytes, ns: seq<nat>, k: nat): int
    requires k <= |ns|
  {
    After(s, file, ns, k).t.totalPackets - Acknowledged(s, file, ns, k)
  }

  /** ACK k names the block sent last, or finds nothing left to send. */
  predicate Harmless(s: Serving, file: bytes, ns: seq<nat>, k: nat)
    requires k < |ns|
  {
    var t := After(s, file, ns, k).t;
    ns[k] == t.blockNum || t.fileOffset >= |file|
  }

  /** A window is under way, or everything is. */
  ghost predicate Paced(s: Serving, file: bytes, acked: nat) {
    var w := s.t.opts.windowsize;
    && s.t.totalPackets - acked <= w
    && (s.t.phase.Send? && s.t.totalPackets > 0 && s.t.fileOffset < |file| ==> s.t.totalPackets - acked == w)
  }

  /** What an ACK does to the count of blocks. */
  lemma OneAck(s: Serving, file: bytes, n: nat)
    requires Inv(s, file) && Active(OnAck(s, file, n))
    ensures var s' := OnAck(s, file, n);
            var w, total := s.t.opts.windowsize, s.t.totalPackets;
            && Active(s) && s.t.phase.Send? && s'.t.opts == s.t.opts
            && (n == s.t.blockNum || (n + 1 == s.t.blockNum && total > 0))
            && total <= s'.t.totalPackets <= total + w
            && (s.t.fileOffset >= |file| ==> s'.t.totalPackets == total)
            && (s.t.fileOffset < |file| ==> s'.t.totalPackets > total)
            && (s'.t.phase.Send? ==> s'.t.totalPackets == total + w)
  {
    hide SendLoop, Emission, BlockCount, Wire;
    var b, w, total := s.t.opts.blksize, s.t.opts.windowsize, s.t.totalPackets;
    var s' := OnAck(s, file, n);
    AckKeeps(s, file, n);
    assert InStep(s, file) && InStep(s', file);
    WireZero();
    assert (s.windows + 1) * w == s.windows * w + w;
    BlockCounts(|file|, b, total);
  }

  lemma WireZero()
    ensures Wire(0) == 0
  {
  }

  lemma PacedStep(s: Serving, file: bytes, n: nat, acked: nat)
    requires Inv(s, file) && Active(OnAck(s, file, n)) && Paced(s, file, acked)
    ensures var s' := OnAck(s, file, n);
            var acked' := if n == s.t.blockNum then s.t.totalPackets else acked;
            if n == s.t.blockNum || s.t.fileOffset >= |file| then Paced(s', file, acked')
            else s'.t.totalPackets - acked' > s'.t.opts.windowsize
  {
    hide OnAck, Inv, Active;
    OneAck(s, file, n);
    OffsetFollows(s, file, n);
  }

  lemma OffsetFollows(s: Serving, file: bytes, n: nat)
    requires Inv(s, file) && Active(OnAck(s, file, n))
    ensures s.t.fileOffset >= |file| ==> OnAck(s, file, n).t.fileOffset >= |file|
  {
    hide SendLoop, Emission, Wire;
    var s' := OnAck(s, file, n);
    AckKeeps(s, file, n);
    OneAck(s, file, n);
    MulMono(s.t.totalPackets, s'.t.totalPackets, s.t.opts.blksize);
  }

  lemma {:induction false} PacedRun(s: Serving, file: bytes, ns: seq<nat>, k: nat)
    requires Inv(s, file) && Paced(s, file, 0) && k <= |ns| && Active(After(s, file, ns, k))
    requires forall j :: 0 <= j < k ==> Harmless(s, file, ns, j)
    ensures Paced(After(s, file, ns, k), file, Acknowledged(s, file, ns, k))
    decreases k
  {
    hide OnAck, Inv, Active, Paced;
    if k > 0 {
      Unfold(s, file, ns, k - 1);
      StaysActive(s, file, ns, k - 1);
      PacedRun(s, file, ns, k - 1);
      assert Harmless(s, file, ns, k - 1);
      PacedStep(After(s, file, ns, k - 1), file, ns[k - 1], Acknowledged(s, file, ns, k - 1));
    } else {
      assert ns[..0] == [];
    }
  }

  lemma Unfold(s: Serving, file: bytes, ns: seq<nat>, k: nat)
    requires k < |ns|
    ensures After(s, file, ns, k + 1) == OnAck(After(s, file, ns, k), file, ns[k])
  {
    hide OnAck;
    assert ns[..k + 1][..k] == ns[..k];
  }

  lemma StaysActive(s: Serving, file: bytes, ns: seq<nat>, k: nat)
    requires Inv(s, file) && k < |ns| && Active(After(s, file, ns, k + 1))
    ensures Inv(After(s, file, ns, k), file) && Active(After(s, file, ns, k))
    ensures After(s, file, ns, k).t.opts == s.t.opts
  {
    hide OnAck, Inv, Active;
    AcksKeep(s, file, ns[..k]);
    Unfold(s, file, ns, k);
    AckKeeps(After(s, file, ns, k), file, ns[k]);
  }

  lemma {:induction false} ActiveBefore(s: Serving, file: bytes, ns: seq<nat>, n: nat)
    requires Inv(s, file) && n <= |ns| && Active(After(s, file, ns, n))
    ensures forall k :: 0 <= k <= n ==>
              Inv(After(s, file, ns, k), file) && Active(After(s, file, ns, k)) && After(s, file, ns, k).t.opts == s.t.opts
    decreases n
  {
    hide OnAck, Inv, Active;
    AcksKeep(s, file, ns[..n]);
    if n > 0 {
      StaysActive(s, file, ns, n - 1);
      ActiveBefore(s, file, ns, n - 1);
    }
  }

  lemma {:induction false} FirstHarm(s: Serving, file: bytes, ns: seq<nat>, n: nat) returns (k: nat)
    requires n <= |ns| && exists j :: 0 <= j < n && !Harmless(s, file, ns, j)
    ensures k < n && !Harmless(s, file, ns, k) && forall j :: 0 <= j < k ==> Harmless(s, file, ns, j)
    decreases n
  {
    hide Harmless;
    if exists j :: 0 <= j < n - 1 && !Harmless(s, file, ns, j) {
      k := FirstHarm(s, file, ns, n - 1);
    } else {
      k := n - 1;
    }
  }

  /** A download as it begins is paced. */
  lemma BeginsPaced(file: bytes, opts: Opts, wrap: bool, withOptions: bool)
    requires 0 < opts.blksize && 0 < opts.windowsize && Active(Begin(file, opts, wrap, withOptions))
    ensures var s := Begin(file, opts, wrap, withOptions); Inv(s, file) && Paced(s, file, 0) && s.t.opts == opts
  {
    hide SendLoop, Emission, BlockCount, Wire;
    BeginKeeps(file, opts, wrap, withOptions);
    BeginCounts(file, opts, wrap, withOptions);
    var s := Begin(file, opts, wrap, withOptions);
    assert InStep(s, file);
  }

  /** As long as a transfer goes on, no more than one window is under way at any moment,
      exactly when every ACK names the block sent last - a new window, in other words, is
      never released by a stale ACK - or finds nothing left to send. */
  lemma OneWindowUnderWayIff(file: bytes, opts: Opts, wrap: bool, withOptions: bool, ns: seq<nat>)
    requires 0 < opts.blksize && 0 < opts.windowsize && Active(OnAcks(Begin(file, opts, wrap, withOptions), file, ns))
    ensures var s := Begin(file, opts, wrap, withOptions);
            (forall k :: 0 <= k <= |ns| ==> UnderWay(s, file, ns, k) <= opts.windowsize)
            <==> forall k :: 0 <= k < |ns| ==> Harmless(s, file, ns, k)
  {
    hide OnAck, OnAcks, Inv, Active, Begin, Paced, Harmless, UnderWay, After;
    var s := Begin(file, opts, wrap, withOptions);
    BeginKeeps(file, opts, wrap, withOptions);
    assert After(s, file, ns, |ns|) == OnAcks(s, file, ns) && After(s, file, ns, 0) == s by {
      AfterEnds(s, file, ns);
    }
    ActiveBefore(s, file, ns, |ns|);
    BeginsPaced(file, opts, wrap, withOptions);
    UnderWayIff(s, file, ns);
  }

  lemma AfterEnds(s: Serving, file: bytes, ns: seq<nat>)
    ensures After(s, file, ns, |ns|) == OnAcks(s, file, ns) && After(s, file, ns, 0) == s
  {
    hide OnAck;
    assert ns[..|ns|] == ns && ns[..0] == [];
  }

  lemma UnderWayIff(s: Serving, file: bytes, ns: seq<nat>)
    requires Inv(s, file) && Paced(s, file, 0) && Active(After(s, file, ns, |ns|))
    ensures (forall k :: 0 <= k <= |ns| ==> UnderWay(s, file, ns, k) <= s.t.opts.windowsize)
            <==> forall k :: 0 <= k < |ns| ==> Harmless(s, file, ns, k)
  {
    hide OnAck, Inv, Active;
    ActiveBefore(s, file, ns, |ns|);
    if forall k :: 0 <= k < |ns| ==> Harmless(s, file, ns, k) {
      forall k | 0 <= k <= |ns| ensures UnderWay(s, file, ns, k) <= s.t.opts.windowsize {
        PacedRun(s, file, ns, k);
      }
    } else {
      var k := FirstHarm(s, file, ns, |ns|);
      PacedRun(s, file, ns, k);
      Unfold(s, file, ns, k);
      PacedStep(After(s, file, ns, k), file, ns[k], Acknowledged(s, file, ns, k));
      assert UnderWay(s, file, ns, k + 1) > s.t.opts.windowsize;
    }
  }
}
