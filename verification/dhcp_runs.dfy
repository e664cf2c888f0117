/** Whole runs of the DHCP server: any messages at any times, reservations, and the timer's
    garbage collections in between. */
module DhcpRuns {
  import opened DhcpPackets
  import opened DhcpTables

  datatype Event =
    | Message(packet: Packet, now: int, entropy: nat -> nat)
    | Timer(now: int)
    | Reservation(mac: MAC, ip: IPv4, now: int)

  /** One entry for every message handled; no code reads it. */
  datatype Entry = Entry(mac: MAC, now: int, reply: Reply)

  datatype State = State(tables: Tables, log: seq<Entry>)

  const START := State(EMPTY, [])

  ghost function Step(config: Config, s: State, e: Event): State {
    match e
    case Message(p, now, entropy) =>
      var (t, reply) := Handle(config, s.tables, p, now, entropy);
      State(t, s.log + [Entry(p.chaddr, now, reply)])
    case Timer(now) => s.(tables := Gc(s.tables, now))
    case Reservation(mac, ip, _) => s.(tables := Reserve(s.tables, mac, ip))
  }

  ghost function Run(config: Config, s: State, es: seq<Event>): State
    decreases |es|
  {
    if es == [] then s else Step(config, Run(config, s, es[..|es| - 1]), es[|es| - 1])
  }

  ghost predicate Monotone(es: seq<Event>) {
    forall i, j :: 0 <= i < j < |es| ==> es[i].now <= es[j].now
  }

  // ---- The invariant in every reachable state ----------------------------------------------

  /** Each client gets one reservation. */
  ghost predicate OncePerClient(es: seq<Event>) {
    forall i, j :: 0 <= i < j < |es| && es[i].Reservation? && es[j].Reservation? ==> es[i].mac != es[j].mac
  }

  lemma {:induction false} NotReserved(config: Config, es: seq<Event>, mac: MAC)
    requires forall i :: 0 <= i < |es| && es[i].Reservation? ==> es[i].mac != mac
    ensures mac !in Run(config, START, es).tables.reservations
    decreases |es|
  {
    hide Step;
    if es != [] {
      NotReserved(config, es[..|es| - 1], mac);
      StepReservations(config, Run(config, START, es[..|es| - 1]), es[|es| - 1], mac);
    }
  }

  lemma StepReservations(config: Config, s: State, e: Event, mac: MAC)
    requires !e.Reservation? || e.mac != mac
    ensures mac in Step(config, s, e).tables.reservations <==> mac in s.tables.reservations
  {
    hide InSubnet, Allocate;
  }

  lemma EmptyIsSound(config: Config)
    ensures Sound(config, EMPTY) && Accounted(EMPTY)
  {
  }

  /** In every reachable state the tables are sound; with one reservation for each client
      nothing leaks. */
  lemma {:induction false} Reachable(config: Config, es: seq<Event>)
    ensures Sound(config, Run(config, START, es).tables)
    ensures OncePerClient(es) ==> Accounted(Run(config, START, es).tables)
    decreases |es|
  {
    hide Sound, Accounted, Handle, Gc, Reserve;
    if es == [] {
      EmptyIsSound(config);
    } else {
      var before, e := es[..|es| - 1], es[|es| - 1];
      var s := Run(config, START, before);
      Reachable(config, before);
      assert OncePerClient(es) ==> OncePerClient(before);
      match e
      case Message(p, now, entropy) => HandleKeeps(config, s.tables, p, now, entropy);
      case Timer(now) => GcKeeps(config, s.tables, now);
      case Reservation(mac, ip, _) => ReservationKeeps(config, es, s.tables, mac, ip);
    }
  }

  lemma ReservationKeeps(config: Config, es: seq<Event>, t: Tables, mac: MAC, ip: IPv4)
    requires es != [] && es[|es| - 1].Reservation? && es[|es| - 1].mac == mac
    requires t == Run(config, START, es[..|es| - 1]).tables && Sound(config, t)
    ensures Sound(config, Reserve(t, mac, ip))
    ensures OncePerClient(es) && Accounted(t) ==> Accounted(Reserve(t, mac, ip))
  {
    hide Run, Accounted, Sound;
    ReserveKeepsSound(config, t, mac, ip);
    if OncePerClient(es) && Accounted(t) {
      NotReserved(config, es[..|es| - 1], mac);
      ReserveKeeps(config, t, mac, ip);
    }
  }

  // ---- Reclamation -------------------------------------------------------------------------

  ghost predicate ExpiresBy(t: Tables, limit: int) {
    && (forall ip :: ip in t.leases ==> t.leases[ip].expires <= limit)
    && (forall ip :: ip in t.offers ==> t.offers[ip].expires <= limit)
  }

  lemma StepExpires(config: Config, s: State, e: Event, limit: int)
    requires ExpiresBy(s.tables, limit) && (e.Message? ==> e.now + INTERNAL_LEASE_TIME <= limit)
    ensures ExpiresBy(Step(config, s, e).tables, limit)
  {
    hide InSubnet, Allocate, Chosen, Unset, MustRefuse;
  }

  lemma {:induction false} RunExpires(config: Config, es: seq<Event>, last: int)
    requires forall i :: 0 <= i < |es| && es[i].Message? ==> es[i].now <= last
    ensures ExpiresBy(Run(config, START, es).tables, last + INTERNAL_LEASE_TIME)
    decreases |es|
  {
    hide Step;
    if es != [] {
      RunExpires(config, es[..|es| - 1], last);
      StepExpires(config, Run(config, START, es[..|es| - 1]), es[|es| - 1], last + INTERNAL_LEASE_TIME);
    }
  }

  /** What a garbage collection leaves in use is reserved, or leased or offered for longer. */
  lemma BackedAfterGc(t: Tables, now: int)
    requires Accounted(t)
    ensures var g := Gc(t, now);
            forall ip :: ip in g.inUse && ip !in Reserved(t) ==>
              (ip in g.leases && g.leases[ip].expires > now) || (ip in g.offers && g.offers[ip].expires > now)
  {
    assert Reserved(Gc(t, now)) == Reserved(t);
  }

  /** After 900 seconds without a message one garbage collection frees every address that
      is not reserved. */
  lemma Reclaimed(config: Config, es: seq<Event>, last: int, now: int)
    requires OncePerClient(es)
    requires forall i :: 0 <= i < |es| && es[i].Message? ==> es[i].now <= last
    requires now >= last + INTERNAL_LEASE_TIME
    ensures var g := Gc(Run(config, START, es).tables, now);
            g.leases == map[] && g.offers == map[] && g.inUse <= Reserved(g)
  {
    hide Run, Reserved;
    var t := Run(config, START, es).tables;
    Reachable(config, es);
    RunExpires(config, es, last);
    GcKeeps(config, t, now);
  }

  // ---- The timer ---------------------------------------------------------------------------

  /** An earlier garbage collection makes no difference to a later one. */
  lemma GcAbsorbs(t: Tables, t1: int, t2: int)
    requires t1 <= t2
    ensures Gc(Gc(t, t1), t2) == Gc(t, t2)
  {
    var once, twice := Gc(t, t2), Gc(Gc(t, t1), t2);
    assert once.leases == twice.leases && once.offers == twice.offers;
    forall ip ensures ip in once.inUse <==> ip in twice.inUse {
    }
  }

  /** A reservation is the one thing that does not go well with it: made for an address whose
      lease or offer has expired but not been collected, it loses the address to the next
      collection. */
  lemma ReserveCommutesIff(t: Tables, mac: MAC, ip: IPv4, now: int)
    ensures Gc(Reserve(t, mac, ip), now) == Reserve(Gc(t, now), mac, ip) <==>
            ip !in DeadOffers(t, now) && ip !in DeadLeases(t, now)
  {
    var a, b := Gc(Reserve(t, mac, ip), now), Reserve(Gc(t, now), mac, ip);
    assert a.leases == b.leases && a.offers == b.offers && a.reservations == b.reservations;
    assert DeadOffers(Reserve(t, mac, ip), now) == DeadOffers(t, now);
    assert DeadLeases(Reserve(t, mac, ip), now) == DeadLeases(t, now);
    assert ip in b.inUse;
    assert ip !in DeadOffers(t, now) && ip !in DeadLeases(t, now) ==> a.inUse == b.inUse;
  }

  /** The run without its timer. */
  ghost function WithoutTimer(es: seq<Event>): seq<Event> {
    if es == [] then []
    else
      var before := WithoutTimer(es[..|es| - 1]);
      if es[|es| - 1].Timer? then before else before + [es[|es| - 1]]
  }

  /** The same log, and the same tables after the next garbage collection. */
  ghost predicate Alike(s: State, u: State, from: int) {
    s.log == u.log && forall now :: now >= from ==> Gc(s.tables, now) == Gc(u.tables, now)
  }

  /** The address has an entry that the next garbage collection removes and frees. */
  predicate Expired(t: Tables, ip: IPv4, now: int) {
    ip in DeadOffers(t, now) || ip in DeadLeases(t, now)
  }

  /** A reservation finds the address expired in both runs or in neither: the timer has not
      just collected what it would still find without the timer. */
  predicate SameFate(s: State, u: State, e: Event) {
    e.Reservation? ==> (Expired(s.tables, e.ip, e.now) <==> Expired(u.tables, e.ip, e.now))
  }

  lemma StepAlike(config: Config, s: State, u: State, e: Event, from: int)
    requires Alike(s, u, from) && from <= e.now
    ensures Alike(Step(config, s, e), if e.Timer? then u else Step(config, u, e), e.now) <==> SameFate(s, u, e)
  {
    hide Gc, Discover, Request, Heeded, Expired, Reserve;
    match e
    case Timer(_) =>
      forall now | now >= e.now ensures Gc(Gc(s.tables, e.now), now) == Gc(u.tables, now) {
        GcAbsorbs(s.tables, e.now, now);
      }
    case Message(_, _, _) =>
      assert Gc(s.tables, e.now) == Gc(u.tables, e.now);
    case Reservation(mac, ip, now) =>
      ReserveAlike(s.tables, u.tables, mac, ip, now);
  }

  lemma ReserveAlike(t: Tables, u: Tables, mac: MAC, ip: IPv4, from: int)
    requires forall now :: now >= from ==> Gc(t, now) == Gc(u, now)
    ensures (forall now :: now >= from ==> Gc(Reserve(t, mac, ip), now) == Gc(Reserve(u, mac, ip), now))
            <==> (Expired(t, ip, from) <==> Expired(u, ip, from))
  {
    hide Gc, Expired, Reserve;
    forall now | now >= from
      ensures Gc(Reserve(t, mac, ip), now) == Gc(Reserve(u, mac, ip), now)
              <==> (Expired(t, ip, now) <==> Expired(u, ip, now))
      ensures (Expired(t, ip, from) <==> Expired(u, ip, from)) ==> (Expired(t, ip, now) <==> Expired(u, ip, now))
    {
      assert Gc(t, now) == Gc(u, now) && Gc(t, from) == Gc(u, from);
      ReserveThenGc(t, u, mac, ip, now);
      if Expired(t, ip, from) <==> Expired(u, ip, from) {
        ExpiredLater(t, u, ip, from, now);
      }
    }
  }

  lemma ReserveThenGc(t: Tables, u: Tables, mac: MAC, ip: IPv4, now: int)
    requires Gc(t, now) == Gc(u, now)
    ensures Gc(Reserve(t, mac, ip), now) == Gc(Reserve(u, mac, ip), now)
            <==> (Expired(t, ip, now) <==> Expired(u, ip, now))
  {
    ReservedGc(t, mac, ip, now);
    ReservedGc(u, mac, ip, now);
  }

  lemma ReservedGc(t: Tables, mac: MAC, ip: IPv4, now: int)
    ensures var g := Gc(t, now);
            Gc(Reserve(t, mac, ip), now) ==
            g.(reservations := g.reservations[mac := ip], inUse := if Expired(t, ip, now) then g.inUse else g.inUse + {ip})
    ensures Expired(t, ip, now) ==> ip !in Gc(t, now).inUse
  {
    var r := Reserve(t, mac, ip);
    assert DeadOffers(r, now) == DeadOffers(t, now) && DeadLeases(r, now) == DeadLeases(t, now);
  }

  lemma ExpiredLater(t: Tables, u: Tables, ip: IPv4, from: int, now: int)
    requires from <= now && Gc(t, from) == Gc(u, from) && (Expired(t, ip, from) <==> Expired(u, ip, from))
    ensures Expired(t, ip, now) <==> Expired(u, ip, now)
  {
    LiveEntries(t, ip, from);
    LiveEntries(u, ip, from);
  }

  lemma LiveEntries(t: Tables, ip: IPv4, from: int)
    ensures var g := Gc(t, from);
            && (ip in g.leases <==> ip in t.leases && t.leases[ip].expires > from)
            && (ip in g.leases ==> g.leases[ip] == t.leases[ip])
            && (ip in g.offers <==> ip in t.offers && t.offers[ip].expires > from)
            && (ip in g.offers ==> g.offers[ip] == t.offers[ip])
  {
  }

  /** The run, and the same run without its timer, so far. */
  ghost predicate AlikeAt(config: Config, s: State, es: seq<Event>, k: nat)
    requires 0 < k <= |es|
  {
    Alike(Run(config, s, es[..k]), Run(config, s, WithoutTimer(es[..k])), es[k - 1].now)
  }

  ghost predicate SameFateAt(config: Config, s: State, es: seq<Event>, k: nat)
    requires k < |es|
  {
    SameFate(Run(config, s, es[..k]), Run(config, s, WithoutTimer(es[..k])), es[k])
  }

  lemma OneMore(config: Config, s: State, es: seq<Event>, k: nat)
    requires Monotone(es) && k < |es| && (k > 0 ==> AlikeAt(config, s, es, k))
    ensures AlikeAt(config, s, es, k + 1) <==> SameFateAt(config, s, es, k)
  {
    hide Gc, Step, SameFate, Alike, Monotone;
    LaterAlike(config, s, es, k);
    StepAlike(config, Run(config, s, es[..k]), Run(config, s, WithoutTimer(es[..k])), es[k], es[k].now);
    Prolonged(config, s, es, k);
  }

  lemma Prolonged(config: Config, s: State, es: seq<Event>, k: nat)
    requires k < |es|
    ensures Run(config, s, es[..k + 1]) == Step(config, Run(config, s, es[..k]), es[k])
    ensures Run(config, s, WithoutTimer(es[..k + 1])) ==
            var u := Run(config, s, WithoutTimer(es[..k])); if es[k].Timer? then u else Step(config, u, es[k])
  {
    hide Step;
    var before, upTo := es[..k], es[..k + 1];
    assert upTo[..k] == before && upTo[k] == es[k];
    if !es[k].Timer? {
      assert WithoutTimer(upTo)[..|WithoutTimer(before)|] == WithoutTimer(before);
    }
  }

  lemma LaterAlike(config: Config, s: State, es: seq<Event>, k: nat)
    requires Monotone(es) && k < |es| && (k > 0 ==> AlikeAt(config, s, es, k))
    ensures Alike(Run(config, s, es[..k]), Run(config, s, WithoutTimer(es[..k])), es[k].now)
  {
    hide Gc, Step;
    if k > 0 {
      assert es[k - 1].now <= es[k].now;
    }
  }

  /** The timer changes no reply: a run and the same run without it are alike at every moment,
      exactly when no reservation is made for an address whose expired entry only one of the
      two still holds. */
  lemma {:induction false} TimerIsInvisibleIff(config: Config, s: State, es: seq<Event>, n: nat)
    requires Monotone(es) && n <= |es|
    ensures (forall k :: 0 < k <= n ==> AlikeAt(config, s, es, k)) <==> (forall k :: 0 <= k < n ==> SameFateAt(config, s, es, k))
    decreases n
  {
    hide AlikeAt, SameFateAt, Monotone;
    if n > 0 {
      TimerIsInvisibleIff(config, s, es, n - 1);
      if forall k :: 0 < k <= n - 1 ==> AlikeAt(config, s, es, k) {
        OneMore(config, s, es, n - 1);
      }
    }
  }

  /** So it is in every run without reservations. */
  lemma TimerIsInvisible(config: Config, s: State, es: seq<Event>)
    requires Monotone(es) && forall i :: 0 <= i < |es| ==> !es[i].Reservation?
    ensures es != [] ==> Alike(Run(config, s, es), Run(config, s, WithoutTimer(es)), es[|es| - 1].now)
  {
    TimerIsInvisibleIff(config, s, es, |es|);
    assert es[..|es|] == es;
    assert es != [] ==> AlikeAt(config, s, es, |es|);
  }
}
