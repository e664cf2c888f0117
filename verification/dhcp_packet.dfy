/** DHCP packets as parsed: src/dhcp/types.mts. */
module DhcpPackets {
  import opened Bytes

  type IPv4 = string
  type MAC = string

  const DISCOVER: nat := 1
  const OFFER: nat := 2
  const REQUEST: nat := 3
  const ACK: nat := 5
  const NAK: nat := 6

  /** The last option of each code, by code. */
  type Options = map<byte, bytes>

  datatype Packet = Packet(
    op: byte,
    htype: byte,
    hlen: byte,
    hops: byte,
    xid: nat,
    secs: nat,
    flags: nat,
    ciaddr: IPv4,
    yiaddr: IPv4,
    siaddr: IPv4,
    giaddr: IPv4,
    chaddr: MAC,
    sname: string,
    file: string,
    options: Options,
    messageType: Option<nat>,
    isPXE: bool,
    requestedIP: Option<IPv4>,
    clientUUID: Option<string>,
    clientArch: Option<nat>,
    hostname: Option<string>,
    serverID: Option<IPv4>)
}
