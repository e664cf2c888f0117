/** Two clients do not hold one address at the same time: over whole runs of the DHCP
    server, exactly when it promises leases no longer than it keeps them. */
module DhcpExclusive {
  import opened Bytes
  import opened DhcpPackets
  import opened DhcpTables
  import opened DhcpRuns

  /** The message is answered with what the server itself finds for the client. */
  ghost predicate Allots(config: Config, t: Tables, p: Packet) {
    && Heeded(config, p)
    && (p.messageType == Some(DISCOVER)
        || (&& !ForOtherServer(config, p) && !MustRefuse(config, t, p.chaddr, Requested(p))
            && (Unset(Requested(p)) || Requested(p) in t.inUse)))
  }

  /** Another client is given a leased address exactly when it is reserved for that client and
      the server chooses; only an ACK of it changes the lease.  The holder's own messages keep
      it until it is given another. */
  lemma HolderKeeps(config: Config, t: Tables, p: Packet, now: int, entropy: nat -> nat, ip: IPv4)
    requires Sound(config, t) && ip in t.leases && t.leases[ip].expires > now
    ensures var held := t.leases[ip];
            var (t', reply) := Handle(config, t, p, now, entropy);
            && (p.chaddr != held.mac ==>
                  && (reply == Acked(ip) || reply == Offered(ip) <==>
                      ReservedFor(t, p.chaddr, ip) && Allots(config, Gc(t, now), p))
                  && (reply != Acked(ip) ==> ip in t'.leases && t'.leases[ip] == held))
            && (p.chaddr == held.mac && (reply.Acked? ==> reply.ip == ip) ==>
                  ip in t'.leases && t'.leases[ip].mac == held.mac
                  && (t'.leases[ip] == held || t'.leases[ip].expires == now + INTERNAL_LEASE_TIME))
  {
    hide InSubnet, Allocate, Requested, Unset, Sound, Granted, Discover;
    var g := Gc(t, now);
    GcKeeps(config, t, now);
    assert ip in g.leases && g.leases[ip] == t.leases[ip];
    LeasedInUse(config, g, ip);
    if p.chaddr != t.leases[ip].mac {
      StrangerAllocates(config, g, p.chaddr, entropy, ip);
    }
    DiscoverLeases(config, g, p.chaddr, now, entropy);
    if Chosen(config, g, p, entropy).Some? {
      GrantedLeases(config, g, p.chaddr, Chosen(config, g, p, entropy).value, now, ip);
    }
  }

  lemma LeasedInUse(config: Config, t: Tables, ip: IPv4)
    requires Sound(config, t) && ip in t.leases
    ensures ip in t.inUse
  {
  }

  lemma DiscoverLeases(config: Config, t: Tables, mac: MAC, now: int, entropy: nat -> nat)
    ensures var (t', reply) := Discover(config, t, mac, now, entropy);
            && t'.leases == t.leases && !reply.Acked?
            && forall ip :: reply == Offered(ip) <==> Allocate(config, t, mac, entropy) == Some(ip)
  {
    hide Allocate;
  }

  /** A lease of `other` makes no difference to the one on `ip`, but by its own client. */
  lemma GrantedLeases(config: Config, t: Tables, mac: MAC, other: IPv4, now: int, ip: IPv4)
    requires Sound(config, t) && ip in t.leases
    ensures var t' := Granted(t, mac, other, now);
            && (t.leases[ip].mac != mac && other != ip ==> ip in t'.leases && t'.leases[ip] == t.leases[ip])
            && (other == ip ==> ip in t'.leases && t'.leases[ip] == Lease(ip, mac, now + INTERNAL_LEASE_TIME))
  {
    hide InSubnet, Unset;
  }

  predicate ReservedFor(t: Tables, mac: MAC, ip: IPv4) {
    mac in t.reservations && t.reservations[mac] == ip
  }

  lemma NotReservedFor(t: Tables, mac: MAC, ip: IPv4)
    requires ip !in Reserved(t)
    ensures !ReservedFor(t, mac, ip)
  {
    if mac in t.reservations {
      assert t.reservations[mac] in Reserved(t);
    }
  }

  lemma ReservedOf(t: Tables, u: Tables)
    requires t.reservations == u.reservations
    ensures Reserved(t) == Reserved(u)
  {
  }

  lemma StrangerAllocates(config: Config, t: Tables, mac: MAC, entropy: nat -> nat, ip: IPv4)
    requires Sound(config, t) && ip in t.inUse
    requires ip in t.leases ==> t.leases[ip].mac != mac
    ensures Allocate(config, t, mac, entropy) == Some(ip) <==> ReservedFor(t, mac, ip)
  {
    if mac !in t.reservations && Allocate(config, t, mac, entropy).Some? {
      AllocatedUsable(config, t, mac, entropy);
    }
  }

  // ---- Runs --------------------------------------------------------------------------------

  ghost predicate NeverReserved(es: seq<Event>, ip: IPv4) {
    forall i :: 0 <= i < |es| && es[i].Reservation? ==> es[i].ip != ip
  }

  /** The holder of the i-th grant has been granted another address before entry j. */
  ghost predicate Moved(log: seq<Entry>, i: nat, j: nat, ip: IPv4)
    requires i < j <= |log|
  {
    exists k :: i < k < j && log[k].mac == log[i].mac && log[k].reply.Acked? && log[k].reply.ip != ip
  }

  /** When an address granted to one client is granted to another, `term` milliseconds have
      passed or the first has moved. */
  ghost predicate Exclusive(term: int, log: seq<Entry>, ip: IPv4) {
    forall i, j :: 0 <= i < j < |log| && log[i].reply == log[j].reply == Acked(ip) && log[i].mac != log[j].mac ==>
      log[j].now >= log[i].now + term || Moved(log, i, j, ip)
  }

  /** A grant that is neither too old nor given up is a lease. */
  ghost predicate Holds(s: State, ip: IPv4, clock: int) {
    forall i :: 0 <= i < |s.log| && s.log[i].reply == Acked(ip) && clock < s.log[i].now + INTERNAL_LEASE_TIME ==>
      || LeasedTo(s.tables, ip, s.log[i].mac, s.log[i].now + INTERNAL_LEASE_TIME)
      || Moved(s.log, i, |s.log|, ip)
  }

  ghost predicate LeasedTo(t: Tables, ip: IPv4, mac: MAC, until: int) {
    ip in t.leases && t.leases[ip].mac == mac && t.leases[ip].expires >= until
  }

  ghost predicate Past(log: seq<Entry>, clock: int) {
    forall i :: 0 <= i < |log| ==> log[i].now <= clock
  }

  ghost predicate Inv(config: Config, s: State, ip: IPv4, clock: int) {
    && Sound(config, s.tables) && ip !in Reserved(s.tables)
    && Past(s.log, clock) && Holds(s, ip, clock) && Exclusive(INTERNAL_LEASE_TIME, s.log, ip)
  }

  lemma MovedExtends(log: seq<Entry>, x: Entry, i: nat, j: nat, ip: IPv4)
    requires i < j <= |log|
    ensures Moved(log, i, j, ip) ==> Moved(log + [x], i, j, ip)
    ensures Moved(log, i, j, ip) ==> Moved(log + [x], i, |log| + 1, ip)
    ensures x.mac == log[i].mac && x.reply.Acked? && x.reply.ip != ip ==> Moved(log + [x], i, |log| + 1, ip)
  {
    var all := log + [x];
    if Moved(log, i, j, ip) {
      var k :| i < k < j && log[k].mac == log[i].mac && log[k].reply.Acked? && log[k].reply.ip != ip;
      assert all[k] == log[k] && all[i] == log[i];
    }
    assert all[|log|] == x && all[i] == log[i];
  }

  lemma MessageKeeps(config: Config, s: State, p: Packet, now: int, entropy: nat -> nat, ip: IPv4, clock: int)
    requires Inv(config, s, ip, clock) && clock <= now
    ensures Inv(config, Step(config, s, Message(p, now, entropy)), ip, now)
  {
    hide Handle, Sound, Reserved, Moved;
    var s' := Step(config, s, Message(p, now, entropy));
    var x := s'.log[|s.log|];
    HandleKeeps(config, s.tables, p, now, entropy);
    HandleReserves(config, s.tables, p, now, entropy);
    forall i | 0 <= i < |s.log| && s.log[i].reply == Acked(ip) && now < s.log[i].now + INTERNAL_LEASE_TIME
      ensures x.reply == Acked(ip) && x.mac != s.log[i].mac ==> Moved(s'.log, i, |s.log|, ip)
      ensures !Moved(s'.log, i, |s'.log|, ip) ==>
                LeasedTo(s'.tables, ip, s.log[i].mac, s.log[i].now + INTERNAL_LEASE_TIME)
    {
      MovedExtends(s.log, x, i, |s.log|, ip);
      if !Moved(s.log, i, |s.log|, ip) {
        NotReservedFor(s.tables, p.chaddr, ip);
        HolderKeeps(config, s.tables, p, now, entropy, ip);
      }
    }
    ExclusiveGrows(s.log, x, ip);
    if x.reply == Acked(ip) {
      GrantIsLease(config, s.tables, p, now, entropy);
    }
  }

  lemma HandleReserves(config: Config, t: Tables, p: Packet, now: int, entropy: nat -> nat)
    ensures Reserved(Handle(config, t, p, now, entropy).0) == Reserved(t)
  {
    hide Reserved, InSubnet, Allocate;
    ReservedOf(t, Handle(config, t, p, now, entropy).0);
  }

  lemma GrantIsLease(config: Config, t: Tables, p: Packet, now: int, entropy: nat -> nat)
    requires Handle(config, t, p, now, entropy).1.Acked?
    ensures var (t', reply) := Handle(config, t, p, now, entropy);
            reply.ip in t'.leases && t'.leases[reply.ip] == Lease(reply.ip, p.chaddr, now + INTERNAL_LEASE_TIME)
  {
    hide InSubnet, Allocate;
  }

  lemma ExclusiveGrows(log: seq<Entry>, x: Entry, ip: IPv4)
    requires Exclusive(INTERNAL_LEASE_TIME, log, ip)
    requires forall i :: 0 <= i < |log| && log[i].reply == Acked(ip) && x.now < log[i].now + INTERNAL_LEASE_TIME ==>
               x.reply == Acked(ip) && x.mac != log[i].mac ==> Moved(log + [x], i, |log|, ip)
    ensures Exclusive(INTERNAL_LEASE_TIME, log + [x], ip)
  {
    hide Moved;
    var all := log + [x];
    forall i, j | 0 <= i < j < |log| && Moved(log, i, j, ip) ensures Moved(all, i, j, ip) {
      MovedExtends(log, x, i, j, ip);
    }
  }

  lemma StepKeeps(config: Config, s: State, e: Event, ip: IPv4, clock: int)
    requires Inv(config, s, ip, clock) && clock <= e.now
    requires e.Reservation? ==> e.ip != ip
    ensures Inv(config, Step(config, s, e), ip, e.now)
  {
    hide Handle, Sound, Moved, Exclusive;
    match e
    case Message(p, now, entropy) => MessageKeeps(config, s, p, now, entropy, ip, clock);
    case Timer(now) => GcKeeps(config, s.tables, now);
    case Reservation(mac, new_ip, _) => ReserveKeepsSound(config, s.tables, mac, new_ip);
  }

  lemma {:induction false} RunKeeps(config: Config, es: seq<Event>, ip: IPv4)
    requires Monotone(es) && NeverReserved(es, ip) && es != []
    ensures Inv(config, Run(config, START, es), ip, es[|es| - 1].now)
    decreases |es|
  {
    hide Step, Inv;
    var before, e := es[..|es| - 1], es[|es| - 1];
    if before == [] {
      InvAtStart(config, ip, e.now);
      StepKeeps(config, START, e, ip, e.now);
    } else {
      RunKeeps(config, before, ip);
      StepKeeps(config, Run(config, START, before), e, ip, before[|before| - 1].now);
    }
  }

  lemma InvAtStart(config: Config, ip: IPv4, now: int)
    ensures Inv(config, START, ip, now)
  {
  }

  // ---- The result --------------------------------------------------------------------------

  /** No run grants a never reserved address to a second client within the lease time that
      the first was promised, unless the first has moved. */
  ghost predicate AlwaysExclusive(config: Config) {
    forall es: seq<Event>, ip :: Monotone(es) && NeverReserved(es, ip) ==>
      Exclusive(config.leaseTime * 1000, Run(config, START, es).log, ip)
  }

  lemma ExclusiveIff(config: Config)
    requires !Unset(config.serverIP)
    ensures AlwaysExclusive(config) <==> config.leaseTime <= 900
  {
    hide Run, Inv;
    if config.leaseTime <= 900 {
      forall es: seq<Event>, ip | Monotone(es) && NeverReserved(es, ip)
        ensures Exclusive(config.leaseTime * 1000, Run(config, START, es).log, ip)
      {
        if es == [] {
          EmptyLog(config);
        } else {
          RunKeeps(config, es, ip);
          InvExcludes(config, Run(config, START, es), ip, es[|es| - 1].now);
        }
      }
    } else {
      SharedAddress(config);
    }
  }

  lemma EmptyLog(config: Config)
    ensures Run(config, START, []) == START
  {
  }

  lemma InvExcludes(config: Config, s: State, ip: IPv4, clock: int)
    requires Inv(config, s, ip, clock) && config.leaseTime <= 900
    ensures Exclusive(config.leaseTime * 1000, s.log, ip)
  {
    hide Moved, Sound, Holds;
  }

  /** A REQUEST of a free address. */
  function AskFor(mac: MAC, ip: IPv4): Packet {
    Packet(1, 1, 6, 0, 0, 0, 0, "0.0.0.0", "0.0.0.0", "0.0.0.0", "0.0.0.0", mac, "", "", map[],
           Some(REQUEST), true, Some(ip), None, None, None, None)
  }

  /** Two clients ask for the server's own address, 900 seconds apart. */
  function TwoAsk(config: Config): seq<Event> {
    [Message(AskFor("02:00:00:00:00:01", config.serverIP), 0, _ => 0),
     Message(AskFor("02:00:00:00:00:02", config.serverIP), INTERNAL_LEASE_TIME, _ => 0)]
  }

  lemma AskGets(config: Config, t: Tables, mac: MAC, ip: IPv4, now: int, entropy: nat -> nat)
    requires Sound(config, t) && ip !in Gc(t, now).inUse && InSubnet(config, ip) && !Unset(ip)
    ensures Handle(config, t, AskFor(mac, ip), now, entropy) == (Granted(Gc(t, now), mac, ip, now), Acked(ip))
  {
    hide InSubnet;
    GcKeeps(config, t, now);
  }

  lemma SharedAddress(config: Config)
    requires !Unset(config.serverIP) && config.leaseTime > 900
    ensures !AlwaysExclusive(config)
  {
    hide InSubnet, Handle;
    var ip, es := config.serverIP, TwoAsk(config);
    var a, b := es[0].packet.chaddr, es[1].packet.chaddr;
    assert InSubnet(config, ip) by { ServerInSubnet(config); }
    EmptyIsSound(config);
    AskGets(config, EMPTY, a, ip, 0, es[0].entropy);
    var s1 := Step(config, START, es[0]);
    HandleKeeps(config, EMPTY, es[0].packet, 0, es[0].entropy);
    FreeAgain(config, a, ip);
    AskGets(config, s1.tables, b, ip, INTERNAL_LEASE_TIME, es[1].entropy);
    var s2 := Step(config, s1, es[1]);
    RunOfTwo(config, es);
    assert s2.log == [Entry(a, 0, Acked(ip)), Entry(b, INTERNAL_LEASE_TIME, Acked(ip))];
    assert Monotone(es) && NeverReserved(es, ip);
    assert !Moved(s2.log, 0, 1, ip);
    assert !Exclusive(config.leaseTime * 1000, s2.log, ip);
  }

  lemma ServerInSubnet(config: Config)
    ensures InSubnet(config, config.serverIP)
  {
  }

  lemma FreeAgain(config: Config, mac: MAC, ip: IPv4)
    ensures ip !in Gc(Granted(Gc(EMPTY, 0), mac, ip, 0), INTERNAL_LEASE_TIME).inUse
  {
    assert !HasLease(Gc(EMPTY, 0), mac);
  }

  lemma RunOfTwo(config: Config, es: seq<Event>)
    requires |es| == 2
    ensures Run(config, START, es) == Step(config, Step(config, START, es[0]), es[1])
  {
    hide Step;
    var first := es[..1];
    assert first[..0] == [] && first[0] == es[0];
    assert Run(config, START, []) == START;
    assert Run(config, START, first) == Step(config, START, es[0]);
  }
}
