/** Which addresses the random source can lead to: src/shared/network.mts. */
module RandomAddresses {
  import opened Bytes
  import opened Bits
  import opened Network
  import opened DhcpPackets
  import opened DhcpTables
  import opened DhcpAnswers

  /** A candidate in a subnet of p addresses, as a number: the server's with a random offset. */
  function Drawn(server: nat, p: nat, random: nat): nat
    requires 0 < p
  {
    server / p * p + random % p
  }

  /** It is passed over: the server's own address, the first or the last of the subnet, or one
      in use. */
  predicate Skipped(server: nat, p: nat, inUse: set<IPv4>, random: nat)
    requires 0 < p
  {
    || Drawn(server, p, random) == server || random % p == 0 || random % p == p - 1
    || IntToIPv4(Drawn(server, p, random)) in inUse
  }

  lemma CandidateIsDrawn(serverIP: IPv4, netmask: IPv4, h: nat, random: nat)
    requires Contiguous(netmask, h)
    ensures Candidate(serverIP, netmask, random) == Drawn(Ipv4ToInt(serverIP), Pow2(h), random) < WORD
  {
    hide And, Or, Not, Pow2, Ipv4ToInt;
    Powers();
    CidrBounds(serverIP, netmask, h);
    NotIs(Ipv4ToInt(netmask), 32);
    AndLow(random, h, 32);
    var x, p := Ipv4ToInt(serverIP), Pow2(h);
    assert x == x / p * p + x % p;
    OrDisjoint(NetworkInt(serverIP, netmask), random % p, h, 32);
  }

  /** A candidate is taken or passed over by these tests, and no others. */
  lemma UsableIff(serverIP: IPv4, netmask: IPv4, h: nat, inUse: set<IPv4>, random: nat)
    requires Contiguous(netmask, h)
    ensures Usable(Candidate(serverIP, netmask, random), serverIP, netmask, inUse)
            <==> !Skipped(Ipv4ToInt(serverIP), Pow2(h), inUse, random)
  {
    hide And, Or, Not, Pow2, Ipv4ToInt, IntToIPv4, NetworkInt, BroadcastInt;
    CandidateIsDrawn(serverIP, netmask, h, random);
    CidrBounds(serverIP, netmask, h);
    var x, p := Ipv4ToInt(serverIP), Pow2(h);
    assert x == x / p * p + x % p;
    IntRoundTrip(NetworkInt(serverIP, netmask));
    IntRoundTrip(BroadcastInt(serverIP, netmask));
  }

  /** Candidate i, counted from `from`, is the first that is not passed over. */
  predicate FirstTaken(server: nat, p: nat, inUse: set<IPv4>, entropy: nat -> nat, from: nat, i: nat)
    requires 0 < p
  {
    && from <= i < 1000 && !Skipped(server, p, inUse, entropy(i))
    && forall j :: from <= j < i ==> Skipped(server, p, inUse, entropy(j))
  }

  lemma {:induction false} FirstUsable(
      serverIP: IPv4, netmask: IPv4, h: nat, inUse: set<IPv4>, entropy: nat -> nat, from: nat) returns (i: nat)
    requires Contiguous(netmask, h) && from <= 1000
    ensures var x, p := Ipv4ToInt(serverIP), Pow2(h);
            var r := RandomIP(serverIP, netmask, inUse, entropy, from);
            && from <= i <= 1000 && (forall j :: from <= j < i ==> Skipped(x, p, inUse, entropy(j)))
            && if i == 1000 then r.None?
               else FirstTaken(x, p, inUse, entropy, from, i) && r == Some(IntToIPv4(Drawn(x, p, entropy(i))))
    decreases 1000 - from
  {
    hide Candidate, Usable, Skipped, IntToIPv4, Drawn, Ipv4ToInt, Pow2, Contiguous;
    if from == 1000 {
      i := 1000;
    } else {
      UsableIff(serverIP, netmask, h, inUse, entropy(from));
      CandidateIsDrawn(serverIP, netmask, h, entropy(from));
      if Usable(Candidate(serverIP, netmask, entropy(from)), serverIP, netmask, inUse) {
        i := from;
      } else {
        i := FirstUsable(serverIP, netmask, h, inUse, entropy, from + 1);
      }
    }
  }

  /** The result is the first of 1000 candidates that is not passed over, and there is none
      exactly when all of them are. */
  lemma RandomIPIs(serverIP: IPv4, netmask: IPv4, h: nat, inUse: set<IPv4>, entropy: nat -> nat)
    requires Contiguous(netmask, h)
    ensures var x, p := Ipv4ToInt(serverIP), Pow2(h);
            var r := RandomIP(serverIP, netmask, inUse, entropy, 0);
            && (r.None? <==> forall i :: 0 <= i < 1000 ==> Skipped(x, p, inUse, entropy(i)))
            && forall i :: FirstTaken(x, p, inUse, entropy, 0, i) ==> r == Some(IntToIPv4(Drawn(x, p, entropy(i))))
  {
    hide RandomIP, Skipped, IntToIPv4, Drawn, Ipv4ToInt, Pow2, Contiguous;
    var k := FirstUsable(serverIP, netmask, h, inUse, entropy, 0);
  }

  /** The addresses that can be drawn: in the usual notation, strictly between the network's and
      the broadcast address, not the server's and not in use. */
  predicate Drawable(server: nat, p: nat, inUse: set<IPv4>, ip: IPv4)
    requires 0 < p
  {
    var n := Ipv4ToInt(ip);
    ip == IntToIPv4(n) && server / p * p < n < server / p * p + p - 1 && n != server && ip !in inUse
  }

  /** Exactly these are the results that some random source leads to. */
  lemma DrawnIff(serverIP: IPv4, netmask: IPv4, h: nat, inUse: set<IPv4>, ip: IPv4)
    requires Contiguous(netmask, h)
    ensures (exists entropy: nat -> nat :: RandomIP(serverIP, netmask, inUse, entropy, 0) == Some(ip))
            <==> Drawable(Ipv4ToInt(serverIP), Pow2(h), inUse, ip)
  {
    hide RandomIP, Drawable, Ipv4ToInt, Pow2, Contiguous;
    if Drawable(Ipv4ToInt(serverIP), Pow2(h), inUse, ip) {
      var entropy := DrawsIt(serverIP, netmask, h, inUse, ip);
    }
    forall entropy: nat -> nat | RandomIP(serverIP, netmask, inUse, entropy, 0) == Some(ip)
      ensures Drawable(Ipv4ToInt(serverIP), Pow2(h), inUse, ip)
    {
      ResultIsDrawable(serverIP, netmask, h, inUse, entropy);
    }
  }

  lemma DrawsIt(serverIP: IPv4, netmask: IPv4, h: nat, inUse: set<IPv4>, ip: IPv4) returns (entropy: nat -> nat)
    requires Contiguous(netmask, h) && Drawable(Ipv4ToInt(serverIP), Pow2(h), inUse, ip)
    ensures RandomIP(serverIP, netmask, inUse, entropy, 0) == Some(ip)
  {
    hide Pow2, Ipv4ToInt, IntToIPv4, RandomIP, Contiguous;
    var n, p, first := Ipv4ToInt(ip), Pow2(h), Ipv4ToInt(serverIP) / Pow2(h) * Pow2(h);
    var offset: nat := n - first;
    entropy := _ => offset;
    ModIs(offset, p, 0, offset);
    assert !Skipped(Ipv4ToInt(serverIP), p, inUse, entropy(0));
    var i := FirstUsable(serverIP, netmask, h, inUse, entropy, 0);
  }

  lemma ResultIsDrawable(serverIP: IPv4, netmask: IPv4, h: nat, inUse: set<IPv4>, entropy: nat -> nat)
    requires Contiguous(netmask, h)
    ensures var r := RandomIP(serverIP, netmask, inUse, entropy, 0);
            r.Some? ==> Drawable(Ipv4ToInt(serverIP), Pow2(h), inUse, r.value)
  {
    hide IntToIPv4, Ipv4ToInt, Pow2, RandomIP;
    var i := FirstUsable(serverIP, netmask, h, inUse, entropy, 0);
    if i < 1000 {
      CandidateIsDrawn(serverIP, netmask, h, entropy(i));
      IntRoundTrip(Drawn(Ipv4ToInt(serverIP), Pow2(h), entropy(i)));
    }
  }

  // ---- Newcomers ---------------------------------------------------------------------------

  /** The client has neither a reservation nor a lease that has not expired. */
  ghost predicate Newcomer(t: Tables, mac: MAC, now: int) {
    mac !in t.reservations && !exists ip :: Holds(t, mac, now, ip)
  }

  /** A newcomer's DISCOVER for us is answered with an OFFER exactly when one of the first 1000
      candidates is not passed over, and exactly the addresses that can be drawn are offered, each
      for some random source. */
  lemma NewcomerIsOffered(config: Config, t: Tables, p: Packet, now: int, entropy: nat -> nat, h: nat, ip: IPv4)
    requires Sound(config, t) && Contiguous(config.subnetMask, h) && Newcomer(t, p.chaddr, now)
    requires !NotForUs(config, p) && p.messageType == Some(1)
    ensures var inUse := Gc(t, now).inUse;
            && (Handle(config, t, p, now, entropy).1.Offered? <==>
                exists i :: 0 <= i < 1000 && !Skipped(Ipv4ToInt(config.serverIP), Pow2(h), inUse, entropy(i)))
            && ((exists e: nat -> nat :: Handle(config, t, p, now, e).1 == Offered(ip)) <==>
                Drawable(Ipv4ToInt(config.serverIP), Pow2(h), inUse, ip))
  {
    hide Handle, RandomIP, Skipped, Drawable, Gc, NotForUs, Contiguous, Sound, Ipv4ToInt, Pow2;
    var inUse := Gc(t, now).inUse;
    forall e: nat -> nat, x: IPv4
      ensures Handle(config, t, p, now, e).1 == Offered(x) <==>
              RandomIP(config.serverIP, config.subnetMask, inUse, e, 0) == Some(x)
    {
      OfferedIff(config, t, p, now, e, x);
    }
    RandomIPIs(config.serverIP, config.subnetMask, h, inUse, entropy);
    DrawnIff(config.serverIP, config.subnetMask, h, inUse, ip);
    SomeSource(config, t, p, now, inUse, ip);
    var r := RandomIP(config.serverIP, config.subnetMask, inUse, entropy, 0);
    assert Handle(config, t, p, now, entropy).1.Offered? <==> r.Some? by {
      if r.Some? {
        assert Handle(config, t, p, now, entropy).1 == Offered(r.value);
      }
      if Handle(config, t, p, now, entropy).1.Offered? {
        assert r == Some(Handle(config, t, p, now, entropy).1.ip);
      }
    }
  }

  lemma SomeSource(config: Config, t: Tables, p: Packet, now: int, inUse: set<IPv4>, ip: IPv4)
    requires forall e: nat -> nat :: Handle(config, t, p, now, e).1 == Offered(ip) <==>
               RandomIP(config.serverIP, config.subnetMask, inUse, e, 0) == Some(ip)
    ensures (exists e: nat -> nat :: Handle(config, t, p, now, e).1 == Offered(ip)) <==>
            (exists e: nat -> nat :: RandomIP(config.serverIP, config.subnetMask, inUse, e, 0) == Some(ip))
  {
    hide Handle, RandomIP;
    if e: nat -> nat :| Handle(config, t, p, now, e).1 == Offered(ip) {
      assert RandomIP(config.serverIP, config.subnetMask, inUse, e, 0) == Some(ip);
    }
    if e: nat -> nat :| RandomIP(config.serverIP, config.subnetMask, inUse, e, 0) == Some(ip) {
      assert Handle(config, t, p, now, e).1 == Offered(ip);
    }
  }
}
