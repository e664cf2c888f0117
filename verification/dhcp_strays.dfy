/** Offers of addresses that are not in use: `offers` is not always a subset of
    `allocatedIPs`, and this says exactly which steps break it. */
module DhcpStrays {
  import opened Bytes
  import opened DhcpPackets
  import opened DhcpTables
  import opened DhcpRuns
  import opened DhcpExclusive
  import Network

  /** The offered addresses that are free. */
  function Strays(t: Tables): set<IPv4> {
    set ip | ip in t.offers && ip !in t.inUse
  }

  ghost predicate OffersInUse(t: Tables) {
    Strays(t) == {}
  }

  /** The leases that expire under an offer that goes on: the collection of the lease frees
      the address. */
  function Orphaned(t: Tables, now: int): set<IPv4> {
    set ip | ip in t.offers && t.offers[ip].expires > now && ip in t.leases && t.leases[ip].expires <= now
  }

  /** The offered address that a client leaves when it is granted another one. */
  ghost function Left(t: Tables, mac: MAC, ip: IPv4): set<IPv4> {
    if HasLease(t, mac) && LeaseOf(t, mac) != ip && LeaseOf(t, mac) in t.offers then {LeaseOf(t, mac)} else {}
  }

  // ---- Step by step ------------------------------------------------------------------------

  /** A collection leaves the strays whose offers go on, and makes one of every orphan. */
  lemma GcStrays(t: Tables, now: int)
    ensures Strays(Gc(t, now)) == (set ip | ip in Strays(t) && t.offers[ip].expires > now) + Orphaned(t, now)
  {
  }

  lemma GrantedStrays(t: Tables, mac: MAC, ip: IPv4, now: int)
    ensures Strays(Granted(t, mac, ip, now)) == Strays(t) - {ip} + Left(t, mac, ip)
  {
  }

  lemma DiscoverStrays(config: Config, t: Tables, mac: MAC, now: int, entropy: nat -> nat)
    ensures Strays(Discover(config, t, mac, now, entropy).0) == Strays(t) - AsSet(Allocate(config, t, mac, entropy))
  {
    hide Allocate;
  }

  /** The address that the client will be given: what the server finds for a DISCOVER, what
      it chooses for a REQUEST that it need not refuse. */
  ghost function Given(config: Config, t: Tables, p: Packet, entropy: nat -> nat): set<IPv4> {
    if p.messageType == Some(DISCOVER) then AsSet(Allocate(config, t, p.chaddr, entropy))
    else if ForOtherServer(config, p) || MustRefuse(config, t, p.chaddr, Requested(p)) then {}
    else AsSet(Chosen(config, t, p, entropy))
  }

  function AsSet(ip: Option<IPv4>): set<IPv4> {
    if ip.Some? then {ip.value} else {}
  }

  /** The offered address that the client will leave for another. */
  ghost function LeftFor(t: Tables, p: Packet, given: set<IPv4>): set<IPv4> {
    if p.messageType == Some(REQUEST) && given != {} && HasLease(t, p.chaddr)
       && LeaseOf(t, p.chaddr) !in given && LeaseOf(t, p.chaddr) in t.offers
    then {LeaseOf(t, p.chaddr)} else {}
  }

  lemma HandleStrays(config: Config, t: Tables, p: Packet, now: int, entropy: nat -> nat)
    requires Heeded(config, p)
    ensures var g := Gc(t, now);
            var given := Given(config, g, p, entropy);
            Strays(Handle(config, t, p, now, entropy).0) == Strays(g) - given + LeftFor(g, p, given)
  {
    hide Gc, Strays, Discover, Granted, Chosen, MustRefuse, ForOtherServer, Allocate;
    var g := Gc(t, now);
    if p.messageType == Some(DISCOVER) {
      DiscoverStrays(config, g, p.chaddr, now, entropy);
    } else if Chosen(config, g, p, entropy).Some? {
      GrantedStrays(g, p.chaddr, Chosen(config, g, p, entropy).value, now);
    }
  }

  // ---- When a step keeps every offer in use --------------------------------------------------

  ghost predicate MessageKeepsOffers(config: Config, t: Tables, p: Packet, now: int, entropy: nat -> nat) {
    var g := Gc(t, now);
    var given := Given(config, g, p, entropy);
    Heeded(config, p) ==> Orphaned(t, now) <= given && LeftFor(g, p, given) == {}
  }

  /** A timer's collection does so exactly when no lease has expired under a live offer. */
  lemma GcKeepsOffersIff(t: Tables, now: int)
    requires OffersInUse(t)
    ensures OffersInUse(Gc(t, now)) <==>
            !exists ip :: ip in t.offers && t.offers[ip].expires > now && ip in t.leases && t.leases[ip].expires <= now
  {
    hide Gc;
    GcStrays(t, now);
    assert Orphaned(t, now) == {} <==>
           !exists ip :: ip in t.offers && t.offers[ip].expires > now && ip in t.leases && t.leases[ip].expires <= now by {
      if Orphaned(t, now) != {} {
        var ip :| ip in Orphaned(t, now);
        assert ip in t.offers && t.offers[ip].expires > now && ip in t.leases && t.leases[ip].expires <= now;
      }
      forall ip | ip in t.offers && t.offers[ip].expires > now && ip in t.leases && t.leases[ip].expires <= now
        ensures Orphaned(t, now) != {}
      {
        assert ip in Orphaned(t, now);
      }
    }
  }

  /** A lease does so exactly when the client does not leave an offered address for it. */
  lemma GrantKeepsOffersIff(t: Tables, mac: MAC, ip: IPv4, now: int)
    requires OffersInUse(t)
    ensures OffersInUse(Granted(t, mac, ip, now)) <==>
            !(HasLease(t, mac) && LeaseOf(t, mac) != ip && LeaseOf(t, mac) in t.offers)
  {
    hide Granted;
    GrantedStrays(t, mac, ip, now);
  }

  /** And a message exactly when the collection before it orphans no offer but of the very
      address that the client will be given, and the client leaves no offered address. */
  lemma HandleKeepsOffersIff(config: Config, t: Tables, p: Packet, now: int, entropy: nat -> nat)
    requires OffersInUse(t)
    ensures OffersInUse(Handle(config, t, p, now, entropy).0) <==> MessageKeepsOffers(config, t, p, now, entropy)
  {
    hide Gc, Discover, Request, Given, LeftFor, Orphaned, Heeded, Strays;
    if Heeded(config, p) {
      GcStrays(t, now);
      HandleStrays(config, t, p, now, entropy);
    }
  }

  /** Reservations only ever put addresses in use. */
  lemma ReserveStrays(t: Tables, mac: MAC, ip: IPv4)
    ensures Strays(Reserve(t, mac, ip)) == Strays(t) - {ip}
  {
  }

  // ---- Whole runs ----------------------------------------------------------------------------

  /** No event can put an offered address out of use but these. */
  ghost predicate KeepsOffers(config: Config, t: Tables, e: Event) {
    match e
    case Message(p, now, entropy) => MessageKeepsOffers(config, t, p, now, entropy)
    case Timer(now) => Orphaned(t, now) == {}
    case Reservation(_, _, _) => true
  }

  lemma StepKeepsOffersIff(config: Config, s: State, e: Event)
    requires OffersInUse(s.tables)
    ensures OffersInUse(Step(config, s, e).tables) <==> KeepsOffers(config, s.tables, e)
  {
    hide Gc, Handle, Reserve, MessageKeepsOffers, Orphaned, Strays;
    match e
    case Message(p, now, entropy) => HandleKeepsOffersIff(config, s.tables, p, now, entropy);
    case Timer(now) => GcStrays(s.tables, now);
    case Reservation(mac, ip, _) => ReserveStrays(s.tables, mac, ip);
  }

  ghost predicate InUseAt(config: Config, es: seq<Event>, k: nat)
    requires k <= |es|
  {
    OffersInUse(Run(config, START, es[..k]).tables)
  }

  ghost predicate KeepsAt(config: Config, es: seq<Event>, k: nat)
    requires k < |es|
  {
    KeepsOffers(config, Run(config, START, es[..k]).tables, es[k])
  }

  /** At every moment of a run all offered addresses are in use, exactly when each of its
      events keeps them so. */
  lemma {:induction false} RunKeepsOffersIff(config: Config, es: seq<Event>, n: nat)
    requires n <= |es|
    ensures (forall k :: 0 <= k <= n ==> InUseAt(config, es, k)) <==> forall k :: 0 <= k < n ==> KeepsAt(config, es, k)
    decreases n
  {
    hide InUseAt, KeepsAt;
    if n == 0 {
      InUseAtStart(config, es);
    } else {
      RunKeepsOffersIff(config, es, n - 1);
      if InUseAt(config, es, n - 1) {
        OneMore(config, es, n - 1);
      }
    }
  }

  lemma OneMore(config: Config, es: seq<Event>, k: nat)
    requires k < |es| && InUseAt(config, es, k)
    ensures InUseAt(config, es, k + 1) <==> KeepsAt(config, es, k)
  {
    hide Step, KeepsOffers, OffersInUse;
    assert es[..k + 1][..k] == es[..k];
    StepKeepsOffersIff(config, Run(config, START, es[..k]), es[k]);
  }

  lemma InUseAtStart(config: Config, es: seq<Event>)
    ensures InUseAt(config, es, 0)
  {
    assert es[..0] == [];
  }

  // ---- Two runs that break it ----------------------------------------------------------------

  /** A client that leases x is offered it again. */
  lemma LeasedAndOffered(config: Config, p: Packet, x: IPv4, later: int, e: nat -> nat)
    requires Heeded(config, p) && p.messageType == Some(DISCOVER) && 0 <= later < INTERNAL_LEASE_TIME
    requires InSubnet(config, x) && !Unset(x)
    ensures var t1 := Handle(config, EMPTY, AskFor(p.chaddr, x), 0, e).0;
            var (t2, offer) := Handle(config, t1, p, later, e);
            && offer == Offered(x) && Sound(config, t2) && OffersInUse(t2)
            && t2 == Tables(map[x := Lease(x, p.chaddr, INTERNAL_LEASE_TIME)],
                            map[x := Offer(x, p.chaddr, later + OFFER_TTL)], {x}, map[])
  {
    hide InSubnet, Unset, Network.RandomIP;
    EmptyIsSound(config);
    AskGets(config, EMPTY, p.chaddr, x, 0, e);
    HandleKeeps(config, EMPTY, AskFor(p.chaddr, x), 0, e);
    assert !HasLease(Gc(EMPTY, 0), p.chaddr);
    var t1 := Handle(config, EMPTY, AskFor(p.chaddr, x), 0, e).0;
    assert t1 == Tables(map[x := Lease(x, p.chaddr, INTERNAL_LEASE_TIME)], map[], {x}, map[]);
    assert Gc(t1, later) == t1;
    LeaseIsUnique(t1, p.chaddr, x);
    HandleKeeps(config, t1, p, later, e);
  }

  /** Its owner is then granted another address that it asks for: the offer goes on, and the
      offered address is free for a stranger. */
  lemma OfferOutlives(config: Config, p: Packet, x: IPv4, y: IPv4, e: nat -> nat)
    requires Heeded(config, p) && p.messageType == Some(DISCOVER)
    requires InSubnet(config, x) && InSubnet(config, y) && !Unset(x) && !Unset(y) && x != y
    ensures var t1 := Handle(config, EMPTY, AskFor(p.chaddr, x), 0, e).0;
            var t2 := Handle(config, t1, p, 0, e).0;
            var (t3, reply) := Handle(config, t2, AskFor(p.chaddr, y), 0, e);
            OffersInUse(t2) && reply == Acked(y) && Strays(t3) == {x}
  {
    hide InSubnet, Unset, Network.RandomIP;
    LeasedAndOffered(config, p, x, 0, e);
    var t2 := Tables(map[x := Lease(x, p.chaddr, INTERNAL_LEASE_TIME)], map[x := Offer(x, p.chaddr, OFFER_TTL)], {x}, map[]);
    assert Gc(t2, 0) == t2;
    AskGets(config, t2, p.chaddr, y, 0, e);
    LeaseIsUnique(t2, p.chaddr, x);
    GrantedStrays(t2, p.chaddr, y, 0);
  }

  /** Or its lease expires: the timer's collection frees the offered address. */
  lemma OfferOutlivesLease(config: Config, p: Packet, x: IPv4, later: int, e: nat -> nat)
    requires Heeded(config, p) && p.messageType == Some(DISCOVER) && InSubnet(config, x) && !Unset(x)
    requires INTERNAL_LEASE_TIME - OFFER_TTL < later < INTERNAL_LEASE_TIME
    ensures var t1 := Handle(config, EMPTY, AskFor(p.chaddr, x), 0, e).0;
            var t2 := Handle(config, t1, p, later, e).0;
            OffersInUse(t2) && Strays(Gc(t2, INTERNAL_LEASE_TIME)) == {x}
  {
    hide Handle, InSubnet, Unset;
    LeasedAndOffered(config, p, x, later, e);
  }
}
