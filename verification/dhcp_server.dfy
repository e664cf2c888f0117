/** The DHCP server object: src/dhcp/server.mts.  Its methods loop over and change the
    tables in place; each is proved against the function that says what it does. */
module DhcpServer {
  import opened Bytes
  import opened DhcpPackets
  import opened DhcpTables
  import Network

  class DHCPServer {
    const config: Config
    var leases: map<IPv4, Lease>
    var offers: map<IPv4, Offer>
    var allocatedIPs: set<IPv4>
    var reservations: map<MAC, IPv4>

    function Model(): Tables
      reads this
    {
      Tables(leases, offers, allocatedIPs, reservations)
    }

    ghost predicate Valid()
      reads this
    {
      Keyed(Model())
    }

    constructor (config: Config)
      ensures Valid() && Model() == EMPTY && this.config == config
    {
      this.config := config;
      leases, offers, allocatedIPs, reservations := map[], map[], {}, map[];
    }

    method HandleMessage(packet: Packet, now: int, entropy: nat -> nat) returns (reply: Reply)
      requires Valid()
      modifies this
      ensures Valid()
      ensures (Model(), reply) == Handle(config, old(Model()), packet, now, entropy)
    {
      if packet.messageType != Some(DISCOVER) && packet.messageType != Some(REQUEST) {
        return Silent;
      }
      if !packet.isPXE && !config.answerAll {
        return Silent;
      }
      GcLeases(now);
      if packet.messageType == Some(DISCOVER) {
        reply := HandleDiscover(packet, now, entropy);
      } else {
        reply := HandleRequest(packet, now, entropy);
      }
    }

    method HandleDiscover(packet: Packet, now: int, entropy: nat -> nat) returns (reply: Reply)
      requires Valid()
      modifies this`allocatedIPs, this`offers
      ensures Valid()
      ensures (Model(), reply) == Discover(config, old(Model()), packet.chaddr, now, entropy)
    {
      hide Allocate;
      var ip := AllocateIP(packet.chaddr, entropy);
      if ip.None? {
        return Failed;
      }
      allocatedIPs := allocatedIPs + {ip.value};
      offers := offers[ip.value := Offer(ip.value, packet.chaddr, now + OFFER_TTL)];
      reply := Offered(ip.value);
    }

    method HandleRequest(packet: Packet, now: int, entropy: nat -> nat) returns (reply: Reply)
      requires Valid()
      modifies this`leases, this`allocatedIPs, this`offers
      ensures Valid()
      ensures (Model(), reply) == Request(config, old(Model()), packet, now, entropy)
    {
      hide InSubnet, Granted, Allocate, Keyed;
      if packet.serverID.Some? && packet.serverID.value != "" && packet.serverID.value != config.serverIP {
        return Silent;
      }
      var requestedIP := if packet.requestedIP.Some? then packet.requestedIP.value else packet.ciaddr;
      if requestedIP != "" && requestedIP != "0.0.0.0" {
        if !InSubnet(config, requestedIP) {
          return Refused;
        }
        if requestedIP in leases && leases[requestedIP].mac != packet.chaddr {
          return Refused;
        }
      }
      var ip: IPv4;
      if requestedIP != "" && requestedIP != "0.0.0.0" && requestedIP !in allocatedIPs && InSubnet(config, requestedIP) {
        ip := requestedIP;
      } else {
        var allocation := AllocateIP(packet.chaddr, entropy);
        if allocation.None? {
          return Failed;
        }
        ip := allocation.value;
      }
      RegisterLease(packet.chaddr, ip, now);
      reply := Acked(ip);
    }

    method RegisterLease(mac: MAC, ip: IPv4, now: int)
      requires Valid()
      modifies this`leases, this`allocatedIPs, this`offers
      ensures Valid()
      ensures Model() == Granted(old(Model()), mac, ip, now)
    {
      GrantedKeyed(Model(), mac, ip, now);
      var existingLease := FindLeaseByMAC(mac);
      if existingLease.Some? {
        leases := leases - {existingLease.value.ip};
        allocatedIPs := allocatedIPs - {existingLease.value.ip};
      }
      leases := leases[ip := Lease(ip, mac, now + INTERNAL_LEASE_TIME)];
      allocatedIPs := allocatedIPs + {ip};
      offers := offers - {ip};
    }

    method AllocateIP(mac: MAC, entropy: nat -> nat) returns (ip: Option<IPv4>)
      requires Valid()
      ensures ip == Allocate(config, Model(), mac, entropy)
    {
      if mac in reservations {
        return Some(reservations[mac]);
      }
      var existingLease := FindLeaseByMAC(mac);
      if existingLease.Some? {
        return Some(existingLease.value.ip);
      }
      ip := Network.GenerateRandomIP(config.serverIP, config.subnetMask, allocatedIPs, entropy);
    }

    /** The first lease found is the only one. */
    method FindLeaseByMAC(mac: MAC) returns (lease: Option<Lease>)
      requires Valid()
      ensures HasLease(Model(), mac) ==> lease == Some(leases[LeaseOf(Model(), mac)]) && lease.value.ip == LeaseOf(Model(), mac)
      ensures !HasLease(Model(), mac) ==> lease == None
    {
      var keys := leases.Keys;
      while keys != {}
        invariant keys <= leases.Keys
        invariant forall ip :: ip in leases && leases[ip].mac == mac ==> ip in keys
        decreases keys
      {
        var ip :| ip in keys;
        if leases[ip].mac == mac {
          LeaseIsUnique(Model(), mac, ip);
          return Some(leases[ip]);
        }
        keys := keys - {ip};
      }
      lease := None;
    }

    /** Expired offers first, looking at the leases that are still there, then the leases. */
    method GcLeases(now: int)
      requires Valid()
      modifies this`leases, this`allocatedIPs, this`offers
      ensures Valid()
      ensures Model() == Gc(old(Model()), now)
    {
      GcKeeps(config, Model(), now);
      CleanOffers(now);
      CleanLeases(now);
    }

    method CleanOffers(now: int)
      modifies this`allocatedIPs, this`offers
      ensures offers == map ip | ip in old(offers) && old(offers)[ip].expires > now :: old(offers)[ip]
      ensures allocatedIPs == old(allocatedIPs) - DeadOffers(old(Model()), now)
    {
      var keys := offers.Keys;
      while keys != {}
        invariant keys <= offers.Keys <= old(offers.Keys)
        invariant forall ip :: ip in offers ==> offers[ip] == old(offers)[ip]
        invariant forall ip :: ip in old(offers) ==> (ip in offers <==> ip in keys || old(offers)[ip].expires > now)
        invariant forall ip :: ip in allocatedIPs <==>
                               ip in old(allocatedIPs) && (ip in keys || ip !in DeadOffers(old(Model()), now))
        decreases keys
      {
        var ip :| ip in keys;
        keys := keys - {ip};
        if offers[ip].expires <= now {
          offers := offers - {ip};
          if ip !in leases {
            allocatedIPs := allocatedIPs - {ip};
          }
        }
      }
    }

    method CleanLeases(now: int)
      modifies this`allocatedIPs, this`leases
      ensures leases == map ip | ip in old(leases) && old(leases)[ip].expires > now :: old(leases)[ip]
      ensures allocatedIPs == old(allocatedIPs) - DeadLeases(old(Model()), now)
    {
      var keys := leases.Keys;
      while keys != {}
        invariant keys <= leases.Keys <= old(leases.Keys)
        invariant forall ip :: ip in leases ==> leases[ip] == old(leases)[ip]
        invariant forall ip :: ip in old(leases) ==> (ip in leases <==> ip in keys || old(leases)[ip].expires > now)
        invariant forall ip :: ip in allocatedIPs <==>
                               ip in old(allocatedIPs) && (ip in keys || ip !in DeadLeases(old(Model()), now))
        decreases keys
      {
        var ip :| ip in keys;
        keys := keys - {ip};
        if leases[ip].expires <= now {
          leases := leases - {ip};
          allocatedIPs := allocatedIPs - {ip};
        }
      }
    }

    method AddReservation(mac: MAC, ip: IPv4)
      requires Valid()
      modifies this`reservations, this`allocatedIPs
      ensures Valid()
      ensures Model() == Reserve(old(Model()), mac, ip)
    {
      reservations := reservations[mac := ip];
      allocatedIPs := allocatedIPs + {ip};
    }

    method Stop()
      modifies this`leases, this`offers, this`allocatedIPs, this`reservations
      ensures Valid() && Model() == EMPTY
    {
      leases, offers, allocatedIPs, reservations := map[], map[], {}, map[];
    }
  }
}
