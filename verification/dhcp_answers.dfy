/** Which messages the DHCP server answers, and how, told from the fields of the packet and the
    tables alone. */
module DhcpAnswers {
  import opened Bytes
  import opened DhcpPackets
  import opened DhcpTables
  import Network

  /** The packet is not for this server: neither DISCOVER nor REQUEST, no PXE client where only
      those are served, or a REQUEST that names another server. */
  predicate NotForUs(config: Config, p: Packet) {
    || (p.messageType != Some(1) && p.messageType != Some(3))
    || (!p.isPXE && !config.answerAll)
    || (p.messageType == Some(3) && p.serverID.Some? && p.serverID.value != "" && p.serverID.value != config.serverIP)
  }

  /** Exactly those packets are passed over in silence; the tables are then as before, but for
      the collection that comes first when it is a REQUEST for another server. */
  lemma SilentIff(config: Config, t: Tables, p: Packet, now: int, entropy: nat -> nat)
    ensures var (t', reply) := Handle(config, t, p, now, entropy);
            && (reply == Silent <==> NotForUs(config, p))
            && (reply == Silent ==>
                  t' == if p.messageType == Some(3) && (p.isPXE || config.answerAll) then Gc(t, now) else t)
  {
    hide Gc, Allocate, InSubnet, Granted;
  }

  /** The address a REQUEST asks for: option 50, else the address the client says it has. */
  function Wanted(p: Packet): IPv4 {
    match p.requestedIP
    case Some(ip) => ip
    case None => p.ciaddr
  }

  predicate Nothing(ip: IPv4) {
    |ip| == 0 || ip == "0.0.0.0"
  }

  /** A NAK is sent exactly for a REQUEST for us of an address outside the subnet, or of one that
      another client holds by a lease that has not expired. */
  lemma RefusedIff(config: Config, t: Tables, p: Packet, now: int, entropy: nat -> nat)
    ensures var ip := Wanted(p);
            Handle(config, t, p, now, entropy).1 == Refused <==>
            && !NotForUs(config, p) && p.messageType == Some(3) && !Nothing(ip)
            && (!Network.InSubnet(ip, config.serverIP, config.subnetMask)
                || (ip in t.leases && t.leases[ip].expires > now && t.leases[ip].mac != p.chaddr))
  {
    hide Allocate, Granted, Network.InSubnet;
    LiveLease(t, now, Wanted(p));
  }

  lemma LiveLease(t: Tables, now: int, ip: IPv4)
    ensures ip in Gc(t, now).leases <==> ip in t.leases && t.leases[ip].expires > now
    ensures ip in Gc(t, now).leases ==> Gc(t, now).leases[ip] == t.leases[ip]
  {
  }

  /** The address that the server has for a client: its reservation, else its live lease, else -
      if it is a newcomer - one that the random source leads to. */
  ghost predicate Has(config: Config, t: Tables, mac: MAC, now: int, entropy: nat -> nat, ip: IPv4) {
    if mac in t.reservations then t.reservations[mac] == ip
    else if exists x :: Holds(t, mac, now, x) then Holds(t, mac, now, ip)
    else Network.RandomIP(config.serverIP, config.subnetMask, Gc(t, now).inUse, entropy, 0) == Some(ip)
  }

  ghost predicate Holds(t: Tables, mac: MAC, now: int, ip: IPv4) {
    ip in t.leases && t.leases[ip].expires > now && t.leases[ip].mac == mac
  }

  lemma AllocateHas(config: Config, t: Tables, mac: MAC, now: int, entropy: nat -> nat, ip: IPv4)
    requires Sound(config, t)
    ensures Allocate(config, Gc(t, now), mac, entropy) == Some(ip) <==> Has(config, t, mac, now, entropy, ip)
  {
    hide Network.RandomIP, InSubnet, Unset;
    var g := Gc(t, now);
    GcKeeps(config, t, now);
    forall x ensures Holds(t, mac, now, x) <==> x in g.leases && g.leases[x].mac == mac {
      LiveLease(t, now, x);
    }
    if HasLease(g, mac) {
      assert Holds(t, mac, now, LeaseOf(g, mac));
      if Holds(t, mac, now, ip) {
        LeaseIsUnique(g, mac, ip);
      }
    }
  }

  /** An OFFER names `ip` exactly when the message is a DISCOVER for us and the server has that
      address for the client. */
  lemma OfferedIff(config: Config, t: Tables, p: Packet, now: int, entropy: nat -> nat, ip: IPv4)
    requires Sound(config, t)
    ensures Handle(config, t, p, now, entropy).1 == Offered(ip) <==>
            !NotForUs(config, p) && p.messageType == Some(1) && Has(config, t, p.chaddr, now, entropy, ip)
  {
    hide Allocate, InSubnet, Granted, Gc, Has;
    AllocateHas(config, t, p.chaddr, now, entropy, ip);
  }

  /** An ACK names `ip` exactly when a REQUEST for us need not be refused, and either asks for
      that address, which is free and in the subnet, or asks for none that is, and the server has
      `ip` for the client. */
  lemma AckedIff(config: Config, t: Tables, p: Packet, now: int, entropy: nat -> nat, ip: IPv4)
    requires Sound(config, t)
    ensures var want := Wanted(p);
            var free := !Nothing(want) && want !in Gc(t, now).inUse
                        && Network.InSubnet(want, config.serverIP, config.subnetMask);
            Handle(config, t, p, now, entropy).1 == Acked(ip) <==>
            && !NotForUs(config, p) && p.messageType == Some(3)
            && Handle(config, t, p, now, entropy).1 != Refused
            && if free then ip == want else Has(config, t, p.chaddr, now, entropy, ip)
  {
    hide Allocate, InSubnet, Granted, Gc, Has, MustRefuse, Network.InSubnet, Wanted, Requested, Nothing, Unset, Heeded,
         ForOtherServer, NotForUs, Discover;
    AllocateHas(config, t, p.chaddr, now, entropy, ip);
    SameWords(config, p);
    if p.messageType == Some(DISCOVER) {
      NoAckOnDiscover(config, t, p, now, entropy);
    }
  }

  lemma SameWords(config: Config, p: Packet)
    ensures Wanted(p) == Requested(p) && (Nothing(Wanted(p)) <==> Unset(Requested(p)))
    ensures InSubnet(config, Wanted(p)) == Network.InSubnet(Wanted(p), config.serverIP, config.subnetMask)
    ensures NotForUs(config, p) <==>
            !Heeded(config, p) || (p.messageType != Some(DISCOVER) && ForOtherServer(config, p))
    ensures Heeded(config, p) ==> p.messageType == Some(1) || p.messageType == Some(3)
  {
    hide Network.InSubnet;
  }

  lemma NoAckOnDiscover(config: Config, t: Tables, p: Packet, now: int, entropy: nat -> nat)
    requires p.messageType == Some(DISCOVER)
    ensures !Discover(config, Gc(t, now), p.chaddr, now, entropy).1.Acked?
  {
    hide Allocate, Gc;
  }

  // ---- The tables afterwards -----------------------------------------------------------------

  /** After an OFFER the address is in use and held for the client for a minute; otherwise the
      tables are as the collection left them. */
  lemma AfterOffer(config: Config, t: Tables, p: Packet, now: int, entropy: nat -> nat)
    requires Handle(config, t, p, now, entropy).1.Offered?
    ensures var (t', reply) := Handle(config, t, p, now, entropy);
            var g, ip := Gc(t, now), reply.ip;
            && t'.inUse == g.inUse + {ip} && t'.leases == g.leases && t'.reservations == t.reservations
            && t'.offers == g.offers[ip := Offer(ip, p.chaddr, now + 60_000)]
  {
    hide Allocate, Granted, InSubnet;
  }

  /** After an ACK the client has that one lease, for 900 seconds; its former address is free
      unless it is the same, and the address is no longer on offer. */
  lemma AfterAck(config: Config, t: Tables, p: Packet, now: int, entropy: nat -> nat)
    requires Sound(config, t) && Handle(config, t, p, now, entropy).1.Acked?
    ensures var (t', reply) := Handle(config, t, p, now, entropy);
            var g, ip := Gc(t, now), reply.ip;
            && (forall x :: x in t'.leases <==> x == ip || (x in g.leases && g.leases[x].mac != p.chaddr))
            && (forall x :: x in t'.leases ==>
                  t'.leases[x] == if x == ip then Lease(ip, p.chaddr, now + 900_000) else g.leases[x])
            && (forall x :: x in t'.inUse <==>
                  x == ip || (x in g.inUse && !(x in g.leases && g.leases[x].mac == p.chaddr)))
            && t'.offers == g.offers - {ip} && t'.reservations == t.reservations
  {
    hide Allocate, InSubnet, Unset, Granted, Gc, Discover, MustRefuse, Chosen;
    var g := Gc(t, now);
    GcKeeps(config, t, now);
    KeepsReservations(t, now);
    if p.messageType == Some(DISCOVER) { NoAckOnDiscover(config, t, p, now, entropy); }
    GrantedIs(config, g, p.chaddr, Handle(config, t, p, now, entropy).1.ip, now);
  }

  lemma KeepsReservations(t: Tables, now: int)
    ensures Gc(t, now).reservations == t.reservations
  {
  }

  lemma GrantedIs(config: Config, g: Tables, mac: MAC, ip: IPv4, now: int)
    requires Sound(config, g)
    ensures var t' := Granted(g, mac, ip, now);
            && (forall x :: x in t'.leases <==> x == ip || (x in g.leases && g.leases[x].mac != mac))
            && (forall x :: x in t'.leases ==>
                  t'.leases[x] == if x == ip then Lease(ip, mac, now + 900_000) else g.leases[x])
            && (forall x :: x in t'.inUse <==> x == ip || (x in g.inUse && !(x in g.leases && g.leases[x].mac == mac)))
            && t'.offers == g.offers - {ip} && t'.reservations == g.reservations
  {
    hide InSubnet, Unset;
  }

  /** A collection leaves the leases and offers that have not expired, and frees the address of a
      lease that has, and of an offer that has unless there is a lease on it. */
  lemma Collected(t: Tables, now: int, ip: IPv4)
    ensures var g := Gc(t, now);
            && (ip in g.leases <==> ip in t.leases && now < t.leases[ip].expires)
            && (ip in g.leases ==> g.leases[ip] == t.leases[ip])
            && (ip in g.offers <==> ip in t.offers && now < t.offers[ip].expires)
            && (ip in g.offers ==> g.offers[ip] == t.offers[ip])
            && (ip in g.inUse <==>
                && ip in t.inUse && !(ip in t.leases && t.leases[ip].expires <= now)
                && !(ip in t.offers && t.offers[ip].expires <= now && ip !in t.leases))
  {
  }
}
