/** What an OFFER is worth, and which addresses a client can get. */
module DhcpOffers {
  import opened Bytes
  import opened DhcpPackets
  import opened DhcpTables
  import opened DhcpRuns
  import opened DhcpExclusive
  import Network

  // ---- From OFFER to ACK -------------------------------------------------------------------

  /** A client that was offered `ip` asks for it. */
  ghost predicate Asks(config: Config, p: Packet, mac: MAC, ip: IPv4) {
    && Heeded(config, p) && p.messageType == Some(REQUEST) && p.chaddr == mac
    && Requested(p) == ip && !ForOtherServer(config, p)
  }

  /** The offered address is itself in use, so the ACK names the offered address exactly when
      the client has it by reservation (and it need not be refused), already leased it when
      it was offered, or asks so late that the offer has expired. */
  lemma AckIsOffer(config: Config, t: Tables, p: Packet, q: Packet, at: int, later: int,
                   e1: nat -> nat, e2: nat -> nat)
    requires Sound(config, t) && at <= later
    requires Heeded(config, p) && p.messageType == Some(DISCOVER)
    requires Handle(config, t, p, at, e1).1.Offered?
    requires Asks(config, q, p.chaddr, Handle(config, t, p, at, e1).1.ip)
    ensures var (t1, offer) := Handle(config, t, p, at, e1);
            Handle(config, t1, q, later, e2).1 == Acked(offer.ip) <==>
            if p.chaddr in t.reservations then !MustRefuse(config, Gc(t1, later), p.chaddr, offer.ip)
            else HasLease(Gc(t, at), p.chaddr) || later >= at + OFFER_TTL
  {
    hide Gc, Discover, Request, Sound, HasLease, MustRefuse, Requested, ForOtherServer, Heeded;
    GcKeeps(config, t, at);
    var g := Gc(t, at);
    var t1 := Discover(config, g, p.chaddr, at, e1).0;
    assert Handle(config, t1, q, later, e2) == Request(config, Gc(t1, later), q, later, e2);
    assert g.reservations == t.reservations by { GcReserves(t, at); }
    if p.chaddr in t.reservations {
      ReservedAsks(config, g, q, at, later, e1, e2);
    } else if HasLease(g, p.chaddr) {
      LeasedAsks(config, g, q, at, later, e1, e2);
    } else {
      NewcomerAsks(config, g, q, at, later, e1, e2);
    }
  }

  lemma GcReserves(t: Tables, now: int)
    ensures Gc(t, now).reservations == t.reservations
  {
  }

  lemma ReservedAsks(config: Config, g: Tables, q: Packet, at: int, later: int, e1: nat -> nat, e2: nat -> nat)
    requires q.chaddr in g.reservations && Discover(config, g, q.chaddr, at, e1).1.Offered?
    requires Asks(config, q, q.chaddr, Discover(config, g, q.chaddr, at, e1).1.ip)
    ensures var (t1, offer) := Discover(config, g, q.chaddr, at, e1);
            Request(config, Gc(t1, later), q, later, e2).1 == Acked(offer.ip) <==>
            !MustRefuse(config, Gc(t1, later), q.chaddr, offer.ip)
  {
    hide InSubnet, Granted, Network.RandomIP;
  }

  lemma LeasedAsks(config: Config, g: Tables, q: Packet, at: int, later: int, e1: nat -> nat, e2: nat -> nat)
    requires Sound(config, g) && q.chaddr !in g.reservations && HasLease(g, q.chaddr)
    requires Discover(config, g, q.chaddr, at, e1).1.Offered?
    requires Asks(config, q, q.chaddr, Discover(config, g, q.chaddr, at, e1).1.ip)
    ensures var (t1, offer) := Discover(config, g, q.chaddr, at, e1);
            Request(config, Gc(t1, later), q, later, e2).1 == Acked(offer.ip)
  {
    hide InSubnet, Granted, Unset, Network.RandomIP;
    var ip := LeaseOf(g, q.chaddr);
    var t1 := Discover(config, g, q.chaddr, at, e1).0;
    DiscoverKeeps(config, g, q.chaddr, at, e1);
    GcKeeps(config, t1, later);
    var g1 := Gc(t1, later);
    if ip in g1.inUse {
      assert ip in g1.leases;
      LeaseIsUnique(g1, q.chaddr, ip);
    }
  }

  lemma NewcomerAsks(config: Config, g: Tables, q: Packet, at: int, later: int, e1: nat -> nat, e2: nat -> nat)
    requires Sound(config, g) && q.chaddr !in g.reservations && !HasLease(g, q.chaddr)
    requires Discover(config, g, q.chaddr, at, e1).1.Offered?
    requires Asks(config, q, q.chaddr, Discover(config, g, q.chaddr, at, e1).1.ip)
    ensures var (t1, offer) := Discover(config, g, q.chaddr, at, e1);
            Request(config, Gc(t1, later), q, later, e2).1 == Acked(offer.ip) <==> later >= at + OFFER_TTL
  {
    hide InSubnet, Granted, Unset, Network.RandomIP, Allocate;
    var (t1, offer) := Discover(config, g, q.chaddr, at, e1);
    var ip := offer.ip;
    AllocatedUsable(config, g, q.chaddr, e1);
    DiscoverKeeps(config, g, q.chaddr, at, e1);
    GcKeeps(config, t1, later);
    var g1 := Gc(t1, later);
    assert ip !in g.leases && !HasLease(g1, q.chaddr);
    assert ip in g1.inUse <==> later < at + OFFER_TTL;
    if Allocate(config, g1, q.chaddr, e2).Some? {
      AllocatedUsable(config, g1, q.chaddr, e2);
    }
  }

  /** A client that asks for the address it leases, or for none, gets it again for another
      900 seconds, and nothing else changes but an offer of it that is used up. */
  lemma Renews(config: Config, t: Tables, p: Packet, now: int, entropy: nat -> nat)
    requires Sound(config, t) && Heeded(config, p) && p.messageType == Some(REQUEST) && !ForOtherServer(config, p)
    requires HasLease(Gc(t, now), p.chaddr) && p.chaddr !in t.reservations
    requires Unset(Requested(p)) || Requested(p) == LeaseOf(Gc(t, now), p.chaddr)
    ensures var g, ip := Gc(t, now), LeaseOf(Gc(t, now), p.chaddr);
            Handle(config, t, p, now, entropy) ==
            (g.(leases := g.leases[ip := Lease(ip, p.chaddr, now + INTERNAL_LEASE_TIME)], offers := g.offers - {ip}),
             Acked(ip))
  {
    hide InSubnet, Unset, Network.RandomIP, Gc;
    GcKeeps(config, t, now);
    GcReserves(t, now);
    var g, ip := Gc(t, now), LeaseOf(Gc(t, now), p.chaddr);
    assert ip in g.inUse && !MustRefuse(config, g, p.chaddr, Requested(p));
    assert Chosen(config, g, p, entropy) == Some(ip);
    var t' := Granted(g, p.chaddr, ip, now);
    assert t'.leases == g.leases[ip := Lease(ip, p.chaddr, now + INTERNAL_LEASE_TIME)];
    assert t'.inUse == g.inUse;
  }

  // ---- Who can get an address --------------------------------------------------------------

  predicate Names(reply: Reply, ip: IPv4) {
    reply == Offered(ip) || reply == Acked(ip)
  }

  /** Some message of this client, sent now, makes the server give it `ip`. */
  ghost predicate CanGet(config: Config, t: Tables, mac: MAC, ip: IPv4, now: int) {
    exists p: Packet, entropy: nat -> nat :: p.chaddr == mac && Names(Handle(config, t, p, now, entropy).1, ip)
  }

  /** A client with no claim to an address can get it exactly when the address lies in the
      server's subnet and is not in use, be it reserved, the server's own or the broadcast
      address. */
  lemma StrangerGetsIff(config: Config, t: Tables, mac: MAC, ip: IPv4, now: int)
    requires Sound(config, t)
    requires mac in t.reservations ==> t.reservations[mac] != ip
    requires ip in Gc(t, now).leases ==> t.leases[ip].mac != mac
    ensures CanGet(config, t, mac, ip, now) <==>
            ip !in Gc(t, now).inUse && InSubnet(config, ip) && !Unset(ip)
  {
    hide InSubnet, Handle, Unset;
    if ip !in Gc(t, now).inUse && InSubnet(config, ip) && !Unset(ip) {
      AskGets(config, t, mac, ip, now, _ => 0);
      assert Names(Handle(config, t, AskFor(mac, ip), now, _ => 0).1, ip);
    }
    forall p: Packet, entropy: nat -> nat | p.chaddr == mac && Names(Handle(config, t, p, now, entropy).1, ip)
      ensures ip !in Gc(t, now).inUse && InSubnet(config, ip) && !Unset(ip)
    {
      StrangerNeedsFree(config, t, p, now, entropy, ip);
    }
  }

  lemma StrangerNeedsFree(config: Config, t: Tables, p: Packet, now: int, entropy: nat -> nat, ip: IPv4)
    requires Sound(config, t) && Names(Handle(config, t, p, now, entropy).1, ip)
    requires p.chaddr in t.reservations ==> t.reservations[p.chaddr] != ip
    requires ip in Gc(t, now).leases ==> t.leases[ip].mac != p.chaddr
    ensures ip !in Gc(t, now).inUse && InSubnet(config, ip) && !Unset(ip)
  {
    hide InSubnet, Unset, Granted, Network.RandomIP;
    var g := Gc(t, now);
    GcKeeps(config, t, now);
    if Allocate(config, g, p.chaddr, entropy) == Some(ip) {
      AllocatedUsable(config, g, p.chaddr, entropy);
    }
  }

  /** A reservation is meant to keep its address from others; it does so until the address
      is offered to its owner and the owner does not ask for it within a minute. */
  lemma ReservedGivenAway(config: Config, owner: Packet, mac: MAC, ip: IPv4, e1: nat -> nat, e2: nat -> nat)
    requires Heeded(config, owner) && owner.messageType == Some(DISCOVER) && owner.chaddr != mac
    requires InSubnet(config, ip) && !Unset(ip)
    ensures var t0 := Reserve(EMPTY, owner.chaddr, ip);
            var (t1, offer) := Handle(config, t0, owner, 0, e1);
            && offer == Offered(ip)
            && !CanGet(config, t0, mac, ip, 0)
            && Handle(config, t1, AskFor(mac, ip), OFFER_TTL, e2).1 == Acked(ip)
  {
    hide InSubnet, Unset, Network.RandomIP;
    var t0 := Reserve(EMPTY, owner.chaddr, ip);
    EmptyIsOk(config);
    ReserveKeepsSound(config, EMPTY, owner.chaddr, ip);
    assert Gc(t0, 0) == t0;
    StrangerGetsIff(config, t0, mac, ip, 0);
    HandleKeeps(config, t0, owner, 0, e1);
    var t1 := Handle(config, t0, owner, 0, e1).0;
    assert ip !in Gc(t1, OFFER_TTL).inUse;
    AskGets(config, t1, mac, ip, OFFER_TTL, e2);
  }

  lemma EmptyIsOk(config: Config)
    ensures Sound(config, EMPTY)
  {
  }

  // ---- An offered address is blocked -------------------------------------------------------

  /** `ip` has been offered to a client that did not lease it, for longer than `now`. */
  ghost predicate Pending(config: Config, t: Tables, ip: IPv4, now: int) {
    && Sound(config, t) && ip in t.inUse && ip !in t.leases && ip !in Reserved(t)
    && ip in t.offers && t.offers[ip].expires > now
  }

  lemma PendingAfterGc(config: Config, t: Tables, ip: IPv4, now: int)
    requires Pending(config, t, ip, now)
    ensures Pending(config, Gc(t, now), ip, now)
  {
    hide InSubnet;
    GcKeeps(config, t, now);
    ReservedOf(t, Gc(t, now));
  }

  /** Nobody is given a pending address, not even the client it was offered to. */
  lemma PendingIsNotNamed(config: Config, t: Tables, p: Packet, now: int, entropy: nat -> nat, ip: IPv4)
    requires Pending(config, t, ip, now)
    ensures var (t', reply) := Handle(config, t, p, now, entropy);
            && !Names(reply, ip)
            && ip in t'.inUse && ip !in t'.leases && ip in t'.offers && t'.offers[ip] == t.offers[ip]
  {
    hide InSubnet, Allocate, Requested, Unset, Sound, Reserved;
    PendingAfterGc(config, t, ip, now);
    StrangerAllocates(config, Gc(t, now), p.chaddr, entropy, ip);
    NotReservedFor(Gc(t, now), p.chaddr, ip);
  }

  /** The offer is still there, and so is its address. */
  ghost predicate StillPends(config: Config, t: Tables, t': Tables, ip: IPv4) {
    && ip in t.offers && ip in t'.offers && t'.offers[ip] == t.offers[ip]
    && (forall now :: now < t.offers[ip].expires ==> Pending(config, t', ip, now))
  }

  lemma MessagePends(config: Config, t: Tables, p: Packet, now: int, entropy: nat -> nat, ip: IPv4)
    requires Pending(config, t, ip, now)
    ensures StillPends(config, t, Handle(config, t, p, now, entropy).0, ip)
    ensures !Names(Handle(config, t, p, now, entropy).1, ip)
  {
    hide Handle, Sound, Reserved, Names;
    PendingIsNotNamed(config, t, p, now, entropy, ip);
    HandleKeeps(config, t, p, now, entropy);
    HandleReserves(config, t, p, now, entropy);
  }

  lemma TimerPends(config: Config, t: Tables, ip: IPv4, now: int)
    requires Pending(config, t, ip, now)
    ensures StillPends(config, t, Gc(t, now), ip)
  {
    hide Sound, Reserved;
    PendingAfterGc(config, t, ip, now);
  }

  lemma ReservationPends(config: Config, t: Tables, mac: MAC, other: IPv4, ip: IPv4, now: int)
    requires Pending(config, t, ip, now) && other != ip
    ensures StillPends(config, t, Reserve(t, mac, other), ip)
  {
    hide Sound, Reserved, Reserve;
    ReserveKeepsSound(config, t, mac, other);
    ReserveOther(t, mac, other, ip);
  }

  lemma StepPends(config: Config, s: State, e: Event, ip: IPv4)
    requires Pending(config, s.tables, ip, e.now) && (e.Reservation? ==> e.ip != ip)
    ensures StillPends(config, s.tables, Step(config, s, e).tables, ip)
    ensures var s' := Step(config, s, e);
            s.log <= s'.log && (forall i :: |s.log| <= i < |s'.log| ==> !Names(s'.log[i].reply, ip))
  {
    hide Handle, StillPends, Reserve, Gc, Pending, Names;
    match e
    case Message(p, now, entropy) => MessagePends(config, s.tables, p, now, entropy, ip);
    case Timer(now) => TimerPends(config, s.tables, ip, now);
    case Reservation(mac, other, now) => ReservationPends(config, s.tables, mac, other, ip, now);
  }

  lemma ReserveOther(t: Tables, mac: MAC, other: IPv4, ip: IPv4)
    requires ip !in Reserved(t) && other != ip
    ensures ip !in Reserved(Reserve(t, mac, other))
    ensures Reserve(t, mac, other).leases == t.leases && Reserve(t, mac, other).offers == t.offers
    ensures t.inUse <= Reserve(t, mac, other).inUse
  {
  }

  /** Whatever messages come, an address offered to a newcomer is given to nobody until the
      offer has expired. */
  lemma {:induction false} OfferBlocks(config: Config, s: State, es: seq<Event>, ip: IPv4, now: int)
    requires Pending(config, s.tables, ip, now) && NeverReserved(es, ip)
    requires forall i :: 0 <= i < |es| ==> es[i].now < s.tables.offers[ip].expires
    ensures es != [] ==> StillPends(config, s.tables, Run(config, s, es).tables, ip)
    ensures var s' := Run(config, s, es);
            s.log <= s'.log && (forall i :: |s.log| <= i < |s'.log| ==> !Names(s'.log[i].reply, ip))
    decreases |es|
  {
    hide Step, Names, Pending;
    if es != [] {
      var before, e := es[..|es| - 1], es[|es| - 1];
      OfferBlocks(config, s, before, ip, now);
      var u := Run(config, s, before);
      OfferIsThere(config, s.tables, ip, now);
      if before == [] {
        LaterPends(config, s.tables, ip, now, e.now);
      }
      StepPends(config, u, e, ip);
    }
  }

  lemma OfferIsThere(config: Config, t: Tables, ip: IPv4, now: int)
    requires Pending(config, t, ip, now)
    ensures ip in t.offers
  {
  }

  lemma LaterPends(config: Config, t: Tables, ip: IPv4, now: int, later: int)
    requires Pending(config, t, ip, now) && later < t.offers[ip].expires
    ensures Pending(config, t, ip, later)
  {
  }

  /** A newcomer's offer makes its address pending for a minute. */
  lemma OfferPends(config: Config, t: Tables, p: Packet, now: int, entropy: nat -> nat)
    requires Sound(config, t) && Heeded(config, p) && p.messageType == Some(DISCOVER)
    requires p.chaddr !in t.reservations && !HasLease(Gc(t, now), p.chaddr)
    requires Handle(config, t, p, now, entropy).1.Offered?
    ensures var (t', reply) := Handle(config, t, p, now, entropy);
            forall later :: later < now + OFFER_TTL && reply.ip !in Reserved(t') ==> Pending(config, t', reply.ip, later)
  {
    hide InSubnet, Allocate, Unset, Reserved;
    HandleKeeps(config, t, p, now, entropy);
    GcKeeps(config, t, now);
    AllocatedUsable(config, Gc(t, now), p.chaddr, entropy);
  }
}
