/** Several peers at once: a run of the whole server, seen by one of them. */
module ServerPeers {
  import opened Bytes
  import opened Buffers
  import opened Transfer
  import opened TftpServer
  import opened TftpCodec
  import opened TftpService

  datatype Event = Received(d: Datagram) | Sweep(now: int)

  /** What a datagram led to; no code reads it. */
  datatype Output = Output(key: Key, replies: seq<Packet>, appended: bytes)

  datatype State = State(table: Table, log: seq<Output>)

  const START := State(map[], [])

  function Step(c: Config, s: State, e: Event): State {
    match e
    case Received(d) =>
      var (table, replies, appended) := OnMessage(c, s.table, d);
      State(table, s.log + [Output(d.key, replies, appended)])
    case Sweep(now) => s.(table := OnSweep(c, s.table, now))
  }

  function Run(c: Config, es: seq<Event>): State
    decreases |es|
  {
    if es == [] then START else Step(c, Run(c, es[..|es| - 1]), es[|es| - 1])
  }

  // ---- What one peer sees of it --------------------------------------------------------------

  predicate Concerns(e: Event, key: Key) {
    e.Received? ==> e.d.key == key
  }

  /** The run without the datagrams of all other peers. */
  function Only(es: seq<Event>, key: Key): seq<Event>
    decreases |es|
  {
    if es == [] then []
    else
      var before := Only(es[..|es| - 1], key);
      if Concerns(es[|es| - 1], key) then before + [es[|es| - 1]] else before
  }

  function Own(log: seq<Output>, key: Key): seq<Output>
    decreases |log|
  {
    if log == [] then []
    else
      var before := Own(log[..|log| - 1], key);
      if log[|log| - 1].key == key then before + [log[|log| - 1]] else before
  }

  function Restrict(table: Table, key: Key): Table {
    if key in table then map[key := table[key]] else map[]
  }

  /** To the peer, the run with all others is like the run on its own. */
  ghost predicate Alike(s: State, u: State, key: Key) {
    u.table == Restrict(s.table, key) && u.log == Own(s.log, key)
  }

  predicate IsRequest(buf: bytes) {
    && |buf| >= OPCODE_LEN && (ReadU16(buf) == RRQ || ReadU16(buf) == WRQ)
    && ParsePacket(buf).Parsed? && (ParsePacket(buf).p.Rrq? || ParsePacket(buf).p.Wrq?)
  }

  /** Others have taken all places. */
  predicate TurnedAway(c: Config, table: Table, e: Event, key: Key) {
    && e.Received? && e.d.key == key && key !in table && IsRequest(e.d.buf)
    && 0 < c.maxTransfers <= |table|
  }

  lemma OwnMore(log: seq<Output>, x: Output, key: Key)
    ensures Own(log + [x], key) == if x.key == key then Own(log, key) + [x] else Own(log, key)
  {
    assert (log + [x])[..|log|] == log;
  }

  lemma OthersDatagram(c: Config, s: State, d: Datagram, key: Key)
    requires d.key != key
    ensures Restrict(OnMessage(c, s.table, d).0, key) == Restrict(s.table, key)
  {
    hide Route, Admit, Heard;
  }

  lemma SweepsAlike(c: Config, table: Table, now: int, key: Key)
    ensures Restrict(OnSweep(c, table, now), key) == OnSweep(c, Restrict(table, key), now)
  {
    hide SweepPeer;
    if key in table {
      assert Restrict(table, key).Keys == {key};
    }
  }

  /** How many places are taken matters to a request only, and only at the limit. */
  lemma AdmitAlike(c: Config, m: nat, n: nat, d: Datagram)
    ensures Admit(c, m, d.buf, d.target) == Admit(c, n, d.buf, d.target)
            || (IsRequest(d.buf) && (m >= c.maxTransfers) != (n >= c.maxTransfers))
  {
    hide ParsePacket, AdmitChecked;
  }

  lemma BusyDiffers(c: Config, m: nat, d: Datagram)
    requires IsRequest(d.buf) && 0 < c.maxTransfers <= m
    ensures Admit(c, m, d.buf, d.target) == Some(Refuse(Err(ILLEGAL_OPERATION, "Server busy")))
    ensures Admit(c, 0, d.buf, d.target) != Admit(c, m, d.buf, d.target)
  {
    hide ParsePacket, SendLoop, Negotiation.Negotiate;
  }

  lemma OwnDatagram(c: Config, table: Table, d: Datagram)
    requires !TurnedAway(c, table, Received(d), d.key)
    ensures var (t, ps, disk) := OnMessage(c, table, d);
            OnMessage(c, Restrict(table, d.key), d) == (Restrict(t, d.key), ps, disk)
  {
    hide Route, Admit, Heard, IsRequest;
    var r, own := OnMessage(c, table, d), OnMessage(c, Restrict(table, d.key), d);
    if d.key !in table {
      AdmitAlike(c, |table|, 0, d);
    }
    assert own.0.Keys == Restrict(r.0, d.key).Keys;
    assert own.0 == Restrict(r.0, d.key);
  }

  lemma StepAlike(c: Config, s: State, u: State, e: Event, key: Key)
    requires Alike(s, u, key)
    ensures Alike(Step(c, s, e), if Concerns(e, key) then Step(c, u, e) else u, key) <==> !TurnedAway(c, s.table, e, key)
  {
    hide OnMessage, OnSweep, Restrict, IsRequest;
    match e
    case Sweep(now) => SweepsAlike(c, s.table, now, key);
    case Received(d) =>
      var (t, ps, disk) := OnMessage(c, s.table, d);
      OwnMore(s.log, Output(d.key, ps, disk), key);
      if d.key != key {
        OthersDatagram(c, s, d, key);
      } else if TurnedAway(c, s.table, e, key) {
        OutOfStep(c, s.table, d);
        DifferAtEnd(u.log, Output(d.key, ps, disk), Step(c, u, e).log[|u.log|]);
      } else {
        OwnDatagram(c, s.table, d);
      }
  }

  lemma DifferAtEnd(log: seq<Output>, x: Output, y: Output)
    ensures log + [x] == log + [y] <==> x == y
  {
    assert (log + [x])[|log|] == x && (log + [y])[|log|] == y;
  }

  lemma OutOfStep(c: Config, table: Table, d: Datagram)
    requires TurnedAway(c, table, Received(d), d.key)
    ensures var r, own := OnMessage(c, table, d), OnMessage(c, Restrict(table, d.key), d);
            r.1 != own.1 || Restrict(r.0, d.key) != own.0
  {
    hide Admit, IsRequest;
    BusyDiffers(c, |table|, d);
  }

  // ---- Runs --------------------------------------------------------------------------------

  ghost predicate AlikeAt(c: Config, es: seq<Event>, key: Key, n: nat)
    requires n <= |es|
  {
    Alike(Run(c, es[..n]), Run(c, Only(es[..n], key)), key)
  }

  /** Datagram k finds a place, or needs none. */
  ghost predicate PlaceAt(c: Config, es: seq<Event>, key: Key, k: nat)
    requires k < |es|
  {
    !TurnedAway(c, Run(c, es[..k]).table, es[k], key)
  }

  /** As long as others have never taken all places when it sends a request, and no longer, the
      server is to each of its peers what it would be without the others: the same answers, the
      same octets appended, the same transfer. */
  lemma {:induction false} IsolationIff(c: Config, es: seq<Event>, key: Key, n: nat)
    requires n <= |es|
    ensures (forall k :: 0 <= k <= n ==> AlikeAt(c, es, key, k))
            <==> forall k :: 0 <= k < n ==> PlaceAt(c, es, key, k)
    decreases n
  {
    hide AlikeAt, PlaceAt;
    if n == 0 {
      AlikeAtStart(c, es, key);
    } else {
      IsolationIff(c, es, key, n - 1);
      if AlikeAt(c, es, key, n - 1) {
        OneMore(c, es, key, n - 1);
      }
    }
  }

  lemma OneMore(c: Config, es: seq<Event>, key: Key, k: nat)
    requires k < |es| && AlikeAt(c, es, key, k)
    ensures AlikeAt(c, es, key, k + 1) <==> PlaceAt(c, es, key, k)
  {
    hide Alike, TurnedAway, Step;
    var before, upTo := es[..k], es[..k + 1];
    assert upTo[..k] == before && upTo[k] == es[k];
    StepAlike(c, Run(c, before), Run(c, Only(before, key)), es[k], key);
    assert Concerns(es[k], key) ==> Only(upTo, key)[..|Only(before, key)|] == Only(before, key);
  }

  lemma AlikeAtStart(c: Config, es: seq<Event>, key: Key)
    ensures AlikeAt(c, es, key, 0)
  {
    assert es[..0] == [];
  }

  /** The peers that take part. */
  function Peers(es: seq<Event>): set<Key> {
    set e | e in es && e.Received? :: e.d.key
  }

  lemma {:induction false} TableOfPeers(c: Config, es: seq<Event>)
    ensures Run(c, es).table.Keys <= Peers(es)
    decreases |es|
  {
    hide OnMessage, OnSweep;
    if es != [] {
      var before, e := es[..|es| - 1], es[|es| - 1];
      TableOfPeers(c, before);
      assert Peers(before) <= Peers(es);
      StepKeys(c, Run(c, before), e);
      assert e in es;
    }
  }

  lemma StepKeys(c: Config, s: State, e: Event)
    ensures Step(c, s, e).table.Keys <= s.table.Keys + if e.Received? then {e.d.key} else {}
  {
    hide Route, Admit, Heard;
  }

  /** So it is whenever no more peers take part than there are places. */
  lemma IsolatedWithRoom(c: Config, es: seq<Event>, key: Key)
    requires |Peers(es)| <= c.maxTransfers
    ensures Own(Run(c, es).log, key) == Run(c, Only(es, key)).log
    ensures Restrict(Run(c, es).table, key) == Run(c, Only(es, key)).table
  {
    hide TurnedAway, Run;
    forall k | 0 <= k < |es| ensures PlaceAt(c, es, key, k) {
      RoomFor(c, es, key, k);
    }
    IsolationIff(c, es, key, |es|);
    assert AlikeAt(c, es, key, |es|) && es[..|es|] == es;
  }

  lemma RoomFor(c: Config, es: seq<Event>, key: Key, k: nat)
    requires |Peers(es)| <= c.maxTransfers && k < |es|
    ensures PlaceAt(c, es, key, k)
  {
    hide Run, IsRequest;
    var table := Run(c, es[..k]).table;
    TableOfPeers(c, es[..k]);
    assert Peers(es[..k]) <= Peers(es);
    if es[k].Received? && es[k].d.key == key && key !in table {
      assert es[k] in es;
      Smaller(table.Keys, Peers(es), key);
    }
  }

  lemma Smaller(a: set<Key>, b: set<Key>, x: Key)
    requires a <= b && x in b && x !in a
    ensures |a| < |b|
  {
    assert a <= b - {x};
    Subset(a, b - {x});
  }

  lemma {:induction false} Subset(a: set<Key>, b: set<Key>)
    requires a <= b
    ensures |a| <= |b|
    decreases |a|
  {
    if x :| x in a {
      Subset(a - {x}, b - {x});
    }
  }
}
