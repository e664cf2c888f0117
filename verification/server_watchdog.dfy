/** How long a silent peer keeps its place: runs of the whole server, in seconds. */
module ServerWatchdog {
  import opened Bytes
  import opened Blocks
  import opened Transfer
  import opened TftpServer
  import opened TftpCodec
  import opened TftpService
  import opened ServerPeers

  /** How long the server waits for the peer each time: the negotiated timeout, or 10 seconds. */
  function Seconds(t: Core): nat {
    match t.opts.timeout
    case Some(seconds) => seconds
    case None => 10
  }

  /** A transfer that was last heard of at `since` has used up its retries. */
  function Deadline(c: Config, t: Core, since: int): int {
    since + Seconds(t) * 1000 * (c.maxRetries + 1)
  }

  /** One sweep: a peer that has been silent for its timeout, times the retries counted and one
      more, has a retry counted against it, or loses its place when it has none left. */
  lemma SweepIs(c: Config, table: Table, now: int, key: Key)
    requires key in table
    ensures var p := table[key];
            var late := now > p.watch.lastSeen + Seconds(p.t) * 1000 * (p.watch.retries + 1);
            && (key !in OnSweep(c, table, now) <==> late && p.watch.retries >= c.maxRetries)
            && (key in OnSweep(c, table, now) ==>
                  OnSweep(c, table, now)[key] ==
                  Peer(p.t, Watch(p.watch.lastSeen, if late then p.watch.retries + 1 else p.watch.retries)))
  {
  }

  /** The datagram tells the server nothing of a transfer: no DATA, no ACK and no ERROR. */
  predicate Idle(buf: bytes) {
    |buf| < 2 || !ParsePacket(buf).Parsed?
    || (!ParsePacket(buf).p.Data? && !ParsePacket(buf).p.Ack? && !ParsePacket(buf).p.Err?)
  }

  /** Event n is the peer's, and keeps or gives it a place: DATA, an ACK, or a granted request. */
  ghost predicate HeardAt(c: Config, es: seq<Event>, key: Key, n: nat)
    requires n < |es|
  {
    && es[n].Received? && es[n].d.key == key && key in Run(c, es[..n + 1]).table
    && (key in Run(c, es[..n]).table ==> !Idle(es[n].d.buf))
  }

  /** The peer says nothing of its transfer from event n to event m. */
  predicate QuietUntil(es: seq<Event>, key: Key, n: nat, m: nat)
    requires m <= |es|
  {
    forall i :: n < i < m && es[i].Received? && es[i].d.key == key ==> Idle(es[i].d.buf)
  }

  lemma Prolonged(c: Config, es: seq<Event>, n: nat)
    requires n < |es|
    ensures Run(c, es[..n + 1]) == Step(c, Run(c, es[..n]), es[n])
  {
    hide Step;
    assert es[..n + 1][..n] == es[..n];
  }

  lemma HeardIsWatched(c: Config, es: seq<Event>, key: Key, n: nat)
    requires n < |es| && HeardAt(c, es, key, n)
    ensures Run(c, es[..n + 1]).table[key].watch == Watch(es[n].d.now, 0)
  {
    hide Admit, HandleTransferAck, HandleTransferData, ParsePacket, Run;
    Prolonged(c, es, n);
  }

  lemma IdleChangesNothing(c: Config, table: Table, d: Datagram)
    requires d.key in table && Idle(d.buf)
    ensures d.key in OnMessage(c, table, d).0 && OnMessage(c, table, d).0[d.key] == table[d.key]
  {
    hide HandleTransferAck, HandleTransferData, ParsePacket;
  }

  lemma OthersChangeNothing(c: Config, table: Table, d: Datagram, key: Key)
    requires d.key != key
    ensures key in OnMessage(c, table, d).0 <==> key in table
    ensures key in table ==> OnMessage(c, table, d).0[key] == table[key]
  {
    hide Route, Admit, Heard;
  }

  /** As the table is after n events, it holds the same transfer, last heard of at `since`. */
  ghost predicate Kept(c: Config, es: seq<Event>, key: Key, n: nat, t: Core, since: int)
    requires n <= |es|
  {
    var table := Run(c, es[..n]).table;
    key in table && table[key].t == t && table[key].watch.lastSeen == since && table[key].watch.retries <= c.maxRetries
  }

  lemma StepKept(c: Config, es: seq<Event>, key: Key, n: nat, t: Core, since: int)
    requires n < |es| && Kept(c, es, key, n, t, since)
    requires es[n].Received? && es[n].d.key == key ==> Idle(es[n].d.buf)
    requires es[n].Sweep? ==> es[n].now <= Deadline(c, t, since)
    ensures Kept(c, es, key, n + 1, t, since)
  {
    hide Run, OnMessage, OnSweep, Idle;
    Prolonged(c, es, n);
    var table := Run(c, es[..n]).table;
    match es[n]
    case Sweep(now) =>
      SweepIs(c, table, now, key);
      if table[key].watch.retries == c.maxRetries {
        assert Deadline(c, t, since) == since + Seconds(t) * 1000 * (table[key].watch.retries + 1);
      }
    case Received(d) =>
      if d.key == key {
        IdleChangesNothing(c, table, d);
      } else {
        OthersChangeNothing(c, table, d, key);
      }
  }

  /** In every run of the server: a peer that has been heard of keeps its transfer, however often
      the sweeps come, as long as none comes later than its timeout times one more than the
      retries. */
  lemma {:induction false} KeptUntilDeadline(c: Config, es: seq<Event>, key: Key, n: nat, m: nat)
    requires n < m <= |es| && HeardAt(c, es, key, n) && QuietUntil(es, key, n, m)
    requires var t := Run(c, es[..n + 1]).table[key].t;
             forall i :: n < i < m && es[i].Sweep? ==> es[i].now <= Deadline(c, t, es[n].d.now)
    ensures Kept(c, es, key, m, Run(c, es[..n + 1]).table[key].t, es[n].d.now)
    decreases m
  {
    hide Run, Idle;
    var t := Run(c, es[..n + 1]).table[key].t;
    HeardIsWatched(c, es, key, n);
    if m > n + 1 {
      KeptUntilDeadline(c, es, key, n, m - 1);
      StepKept(c, es, key, m - 1, t, es[n].d.now);
    }
  }

  /** The sweeps after event n, up to event m, that come later than that. */
  function LateSweepsIn(es: seq<Event>, n: nat, m: nat, deadline: int): nat
    requires m <= |es|
    decreases m
  {
    if m <= n + 1 then 0
    else LateSweepsIn(es, n, m - 1, deadline) + if es[m - 1].Sweep? && es[m - 1].now > deadline then 1 else 0
  }

  /** The transfer is gone, or has a retry counted for each of the late sweeps. */
  ghost predicate Counted(c: Config, es: seq<Event>, key: Key, m: nat, t: Core, since: int, late: nat)
    requires m <= |es|
  {
    var table := Run(c, es[..m]).table;
    key in table ==>
      table[key].t == t && table[key].watch.lastSeen == since && late <= table[key].watch.retries <= c.maxRetries
  }

  lemma StepCounted(c: Config, es: seq<Event>, key: Key, m: nat, t: Core, since: int, late: nat)
    requires m < |es| && Counted(c, es, key, m, t, since, late) && (es[m].Received? ==> es[m].d.key != key)
    ensures Counted(c, es, key, m + 1, t, since,
                    late + if es[m].Sweep? && es[m].now > Deadline(c, t, since) then 1 else 0)
  {
    hide Run, OnMessage, OnSweep;
    Prolonged(c, es, m);
    var table := Run(c, es[..m]).table;
    match es[m]
    case Sweep(now) =>
      if key in table {
        SweepIs(c, table, now, key);
        MulMono(table[key].watch.retries + 1, c.maxRetries + 1, Seconds(t) * 1000);
      } else {
        SweepAddsNone(c, table, now, key);
      }
    case Received(d) =>
      OthersChangeNothing(c, table, d, key);
  }

  lemma SweepAddsNone(c: Config, table: Table, now: int, key: Key)
    requires key !in table
    ensures key !in OnSweep(c, table, now)
  {
  }

  lemma {:induction false} CountedUntil(c: Config, es: seq<Event>, key: Key, n: nat, m: nat)
    requires n < m <= |es| && HeardAt(c, es, key, n)
    requires forall i :: n < i < m && es[i].Received? ==> es[i].d.key != key
    ensures var t := Run(c, es[..n + 1]).table[key].t;
            Counted(c, es, key, m, t, es[n].d.now, LateSweepsIn(es, n, m, Deadline(c, t, es[n].d.now)))
    decreases m
  {
    hide Run, Idle;
    var t := Run(c, es[..n + 1]).table[key].t;
    HeardIsWatched(c, es, key, n);
    if m > n + 1 {
      CountedUntil(c, es, key, n, m - 1);
      StepCounted(c, es, key, m - 1, t, es[n].d.now, LateSweepsIn(es, n, m - 1, Deadline(c, t, es[n].d.now)));
    }
  }

  /** In every run of the server: a peer that falls silent has lost its place after one sweep more
      than the retries later than that deadline, whatever sweeps came before or between. */
  lemma GoneAfterDeadline(c: Config, es: seq<Event>, key: Key, n: nat, m: nat)
    requires n < m <= |es| && HeardAt(c, es, key, n)
    requires forall i :: n < i < m && es[i].Received? ==> es[i].d.key != key
    requires var t := Run(c, es[..n + 1]).table[key].t;
             LateSweepsIn(es, n, m, Deadline(c, t, es[n].d.now)) > c.maxRetries
    ensures key !in Run(c, es[..m]).table
  {
    hide Run;
    CountedUntil(c, es, key, n, m);
  }
}
