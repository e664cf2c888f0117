/** The DHCP server's tables and what each message does to them: src/dhcp/server.mts.

    A handler runs as one step at one time (milliseconds); the random source is a
    parameter.  Replies stand for the packets sent. */
module DhcpTables {
  import opened Bytes
  import opened DhcpPackets
  import Network

  const OFFER_TTL: int := 60_000
  const INTERNAL_LEASE_TIME: int := 900_000

  datatype Config = Config(serverIP: IPv4, subnetMask: IPv4, leaseTime: nat, answerAll: bool)

  datatype Lease = Lease(ip: IPv4, mac: MAC, expires: int)

  datatype Offer = Offer(ip: IPv4, mac: MAC, expires: int)

  datatype Tables = Tables(
    leases: map<IPv4, Lease>,
    offers: map<IPv4, Offer>,
    inUse: set<IPv4>,
    reservations: map<MAC, IPv4>)

  const EMPTY := Tables(map[], map[], {}, map[])

  /** `Failed` is a thrown error, logged by the caller: nothing is sent. */
  datatype Reply = Silent | Failed | Offered(ip: IPv4) | Acked(ip: IPv4) | Refused

  // ---- What each step does -----------------------------------------------------------------

  function DeadOffers(t: Tables, now: int): set<IPv4> {
    set ip | ip in t.offers && t.offers[ip].expires <= now && ip !in t.leases
  }

  function DeadLeases(t: Tables, now: int): set<IPv4> {
    set ip | ip in t.leases && t.leases[ip].expires <= now
  }

  /** Garbage collection: expired entries go, and their addresses become free, but an
      offer's only if no lease, expired or not, has claimed it. */
  function Gc(t: Tables, now: int): Tables {
    t.(offers := map ip | ip in t.offers && t.offers[ip].expires > now :: t.offers[ip],
       leases := map ip | ip in t.leases && t.leases[ip].expires > now :: t.leases[ip],
       inUse := t.inUse - DeadOffers(t, now) - DeadLeases(t, now))
  }

  predicate HasLease(t: Tables, mac: MAC) {
    exists ip :: ip in t.leases && t.leases[ip].mac == mac
  }

  ghost function LeaseOf(t: Tables, mac: MAC): (ip: IPv4)
    requires HasLease(t, mac)
    ensures ip in t.leases && t.leases[ip].mac == mac
  {
    var ip :| ip in t.leases && t.leases[ip].mac == mac;
    ip
  }

  /** The static reservation, else the client's own lease, else a random free address. */
  ghost function Allocate(config: Config, t: Tables, mac: MAC, entropy: nat -> nat): Option<IPv4> {
    if mac in t.reservations then Some(t.reservations[mac])
    else if HasLease(t, mac) then Some(LeaseOf(t, mac))
    else Network.RandomIP(config.serverIP, config.subnetMask, t.inUse, entropy, 0)
  }

  predicate InSubnet(config: Config, ip: IPv4) {
    Network.InSubnet(ip, config.serverIP, config.subnetMask)
  }

  ghost function Discover(config: Config, t: Tables, mac: MAC, now: int, entropy: nat -> nat): (Tables, Reply) {
    var ip := Allocate(config, t, mac, entropy);
    if ip.None? then (t, Failed)
    else
      (t.(inUse := t.inUse + {ip.value},
          offers := t.offers[ip.value := Offer(ip.value, mac, now + OFFER_TTL)]), Offered(ip.value))
  }

  /** The address a REQUEST names; a client that names none leaves 0.0.0.0. */
  function Requested(p: Packet): IPv4 {
    if p.requestedIP.Some? then p.requestedIP.value else p.ciaddr
  }

  predicate Unset(ip: IPv4) {
    ip == "" || ip == "0.0.0.0"
  }

  predicate ForOtherServer(config: Config, p: Packet) {
    p.serverID.Some? && p.serverID.value != "" && p.serverID.value != config.serverIP
  }

  predicate MustRefuse(config: Config, t: Tables, mac: MAC, requested: IPv4) {
    && !Unset(requested)
    && (!InSubnet(config, requested) || (requested in t.leases && t.leases[requested].mac != mac))
  }

  /** The client's old lease goes, its new one is entered and the offer is used up. */
  ghost function Granted(t: Tables, mac: MAC, ip: IPv4, now: int): Tables {
    var t1 := if HasLease(t, mac) then
        t.(leases := t.leases - {LeaseOf(t, mac)}, inUse := t.inUse - {LeaseOf(t, mac)})
      else t;
    t1.(leases := t1.leases[ip := Lease(ip, mac, now + INTERNAL_LEASE_TIME)],
        inUse := t1.inUse + {ip},
        offers := t1.offers - {ip})
  }

  ghost function Chosen(config: Config, t: Tables, p: Packet, entropy: nat -> nat): Option<IPv4> {
    var requested := Requested(p);
    if !Unset(requested) && requested !in t.inUse && InSubnet(config, requested) then Some(requested)
    else Allocate(config, t, p.chaddr, entropy)
  }

  ghost function Request(config: Config, t: Tables, p: Packet, now: int, entropy: nat -> nat): (Tables, Reply) {
    if ForOtherServer(config, p) then (t, Silent)
    else if MustRefuse(config, t, p.chaddr, Requested(p)) then (t, Refused)
    else
      var ip := Chosen(config, t, p, entropy);
      if ip.None? then (t, Failed) else (Granted(t, p.chaddr, ip.value, now), Acked(ip.value))
  }

  predicate Heeded(config: Config, p: Packet) {
    && p.messageType in {Some(DISCOVER), Some(REQUEST)}
    && (p.isPXE || config.answerAll)
  }

  ghost function Handle(config: Config, t: Tables, p: Packet, now: int, entropy: nat -> nat): (Tables, Reply) {
    if !Heeded(config, p) then (t, Silent)
    else if p.messageType == Some(DISCOVER) then Discover(config, Gc(t, now), p.chaddr, now, entropy)
    else Request(config, Gc(t, now), p, now, entropy)
  }

  function Reserve(t: Tables, mac: MAC, ip: IPv4): Tables {
    t.(reservations := t.reservations[mac := ip], inUse := t.inUse + {ip})
  }

  // ---- The invariant -----------------------------------------------------------------------

  /** A client has at most one lease, and a leased address is in use.  An unreserved
      client's lease is for an address that a REQUEST could name. */
  ghost predicate Sound(config: Config, t: Tables) {
    && Keyed(t)
    && (forall ip :: ip in t.leases ==> ip in t.inUse)
    && (forall ip :: ip in t.leases && t.leases[ip].mac !in t.reservations ==> InSubnet(config, ip) && !Unset(ip))
  }

  ghost predicate Keyed(t: Tables) {
    && (forall ip :: ip in t.leases ==> t.leases[ip].ip == ip)
    && (forall a, b :: a in t.leases && b in t.leases && t.leases[a].mac == t.leases[b].mac ==> a == b)
    && (forall ip :: ip in t.offers ==> t.offers[ip].ip == ip)
  }

  function Reserved(t: Tables): set<IPv4> {
    set mac | mac in t.reservations :: t.reservations[mac]
  }

  /** Nothing leaks: every address in use is leased, offered or reserved. */
  ghost predicate Accounted(t: Tables) {
    forall ip :: ip in t.inUse ==> ip in t.leases || ip in t.offers || ip in Reserved(t)
  }

  lemma LeaseIsUnique(t: Tables, mac: MAC, ip: IPv4)
    requires Keyed(t) && ip in t.leases && t.leases[ip].mac == mac
    ensures HasLease(t, mac) && LeaseOf(t, mac) == ip
  {
  }

  lemma GcKeeps(config: Config, t: Tables, now: int)
    ensures Sound(config, t) ==> Sound(config, Gc(t, now))
    ensures Keyed(t) ==> Keyed(Gc(t, now))
    ensures Accounted(t) ==> Accounted(Gc(t, now))
  {
    hide InSubnet;
    assert Reserved(Gc(t, now)) == Reserved(t);
  }

  lemma GrantedKeyed(t: Tables, mac: MAC, ip: IPv4, now: int)
    requires Keyed(t)
    ensures Keyed(Granted(t, mac, ip, now))
  {
  }

  lemma GrantedSound(config: Config, t: Tables, mac: MAC, ip: IPv4, now: int)
    requires Sound(config, t) && (mac in t.reservations || (InSubnet(config, ip) && !Unset(ip)))
    ensures Sound(config, Granted(t, mac, ip, now))
  {
    GrantedKeyed(t, mac, ip, now);
    hide InSubnet, Unset, Keyed;
    var t' := Granted(t, mac, ip, now);
    forall x | x in t'.leases
      ensures x in t'.inUse
      ensures t'.leases[x].mac !in t'.reservations ==> InSubnet(config, x) && !Unset(x)
    {
      assert x != ip ==> x in t.leases && t'.leases[x] == t.leases[x];
    }
  }

  lemma GrantedAccounted(t: Tables, mac: MAC, ip: IPv4, now: int)
    requires Accounted(t)
    ensures Accounted(Granted(t, mac, ip, now))
  {
    assert Reserved(Granted(t, mac, ip, now)) == Reserved(t);
  }

  lemma {:induction false} RandomNotEmpty(config: Config, inUse: set<IPv4>, entropy: nat -> nat, attempt: nat)
    ensures Network.RandomIP(config.serverIP, config.subnetMask, inUse, entropy, attempt) != Some("")
    decreases Network.ATTEMPTS - attempt
  {
    hide Network.Candidate, Network.Usable;
    if attempt < Network.ATTEMPTS {
      var n := Network.Candidate(config.serverIP, config.subnetMask, entropy(attempt));
      Network.DottedNotEmpty(n);
      RandomNotEmpty(config, inUse, entropy, attempt + 1);
    }
  }

  lemma AllocatedUsable(config: Config, t: Tables, mac: MAC, entropy: nat -> nat)
    requires Sound(config, t) && Allocate(config, t, mac, entropy).Some? && mac !in t.reservations
    ensures InSubnet(config, Allocate(config, t, mac, entropy).value)
    ensures !Unset(Allocate(config, t, mac, entropy).value)
    ensures !HasLease(t, mac) ==> Allocate(config, t, mac, entropy).value !in t.inUse
  {
    hide Network.RandomIP, Network.InSubnet;
    Network.RandomIsInside(config.serverIP, config.subnetMask, t.inUse, entropy, 0);
    RandomNotEmpty(config, t.inUse, entropy, 0);
  }

  lemma DiscoverKeeps(config: Config, t: Tables, mac: MAC, now: int, entropy: nat -> nat)
    requires Sound(config, t)
    ensures Sound(config, Discover(config, t, mac, now, entropy).0)
    ensures Accounted(t) ==> Accounted(Discover(config, t, mac, now, entropy).0)
  {
    hide InSubnet, Unset, Allocate;
    assert Reserved(Discover(config, t, mac, now, entropy).0) == Reserved(t);
  }

  lemma RequestKeeps(config: Config, t: Tables, p: Packet, now: int, entropy: nat -> nat)
    requires Sound(config, t)
    ensures Sound(config, Request(config, t, p, now, entropy).0)
    ensures Accounted(t) ==> Accounted(Request(config, t, p, now, entropy).0)
  {
    hide InSubnet, Unset, Allocate, Granted, Requested, Sound;
    var ip := Chosen(config, t, p, entropy);
    if ip.Some? {
      if p.chaddr !in t.reservations && Allocate(config, t, p.chaddr, entropy).Some? {
        AllocatedUsable(config, t, p.chaddr, entropy);
      }
      GrantedSound(config, t, p.chaddr, ip.value, now);
      if Accounted(t) {
        GrantedAccounted(t, p.chaddr, ip.value, now);
      }
    }
  }

  /** Every message, whatever it says and whenever it comes, keeps the invariant. */
  lemma HandleKeeps(config: Config, t: Tables, p: Packet, now: int, entropy: nat -> nat)
    requires Sound(config, t)
    ensures Sound(config, Handle(config, t, p, now, entropy).0)
    ensures Accounted(t) ==> Accounted(Handle(config, t, p, now, entropy).0)
  {
    hide Sound, Accounted, Gc, Discover, Request;
    GcKeeps(config, t, now);
    DiscoverKeeps(config, Gc(t, now), p.chaddr, now, entropy);
    RequestKeeps(config, Gc(t, now), p, now, entropy);
  }

  lemma ReserveKeepsSound(config: Config, t: Tables, mac: MAC, ip: IPv4)
    requires Sound(config, t)
    ensures Sound(config, Reserve(t, mac, ip))
  {
    hide InSubnet, Unset;
  }

  /** A new reservation keeps it too, but one that replaces the client's former address
      leaks that address, unless something else still accounts for it. */
  lemma ReserveKeeps(config: Config, t: Tables, mac: MAC, ip: IPv4)
    requires Sound(config, t) && Accounted(t)
    ensures Accounted(Reserve(t, mac, ip)) <==>
              (mac in t.reservations && t.reservations[mac] in t.inUse ==> StillAccounted(t, mac, ip, t.reservations[mac]))
  {
    hide InSubnet;
    var t' := Reserve(t, mac, ip);
    assert t'.reservations[mac] == ip;
    forall m | m in t.reservations && m != mac ensures t.reservations[m] in Reserved(t') {
      assert t'.reservations[m] == t.reservations[m];
    }
    forall x | x in Reserved(t') && x != ip ensures exists m :: m in t.reservations && m != mac && t.reservations[m] == x {
      var m :| m in t'.reservations && t'.reservations[m] == x;
      assert m in t.reservations && m != mac && t.reservations[m] == x;
    }
  }

  ghost predicate StillAccounted(t: Tables, mac: MAC, ip: IPv4, former: IPv4) {
    || former == ip || former in t.leases || former in t.offers
    || exists m :: m in t.reservations && m != mac && t.reservations[m] == former
  }
}
