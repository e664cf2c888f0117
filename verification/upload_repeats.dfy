/** What repeated and stray DATA do to an upload: the server appends whatever its receive
    buffer holds after every DATA packet, accepted or not (src/tftp/server.mts). */
module UploadRepeats {
  import opened Bytes
  import opened Transfer
  import opened TftpServer

  datatype Arrival = Arrival(block: nat, data: bytes)

  /** The packet is the one the server waits for. */
  predicate Accepts(t: Core, a: Arrival) {
    t.phase.Recv? && a.block == t.blockNum && |a.data| <= t.opts.blksize
  }

  /** The file after the packets, as long as the transfer is registered. */
  function Disk(t: Core, disk: bytes, arrivals: seq<Arrival>): bytes
    decreases |arrivals|
  {
    if arrivals == [] then disk
    else
      var (h, disk') := HandleTransferData(t, disk, arrivals[0].block, arrivals[0].data);
      if h.registered then Disk(h.t, disk', arrivals[1..]) else disk'
  }

  /** What the accepted ones among them carry. */
  function Accepted(t: Core, arrivals: seq<Arrival>): bytes
    decreases |arrivals|
  {
    if arrivals == [] then []
    else
      var h := HandleTransferData(t, [], arrivals[0].block, arrivals[0].data).0;
      (if Accepts(t, arrivals[0]) then arrivals[0].data else [])
      + (if h.registered then Accepted(h.t, arrivals[1..]) else [])
  }

  /** No packet is refused once the server has taken in data. */
  predicate NoStray(t: Core, arrivals: seq<Arrival>)
    decreases |arrivals|
  {
    arrivals == [] ||
    var h := HandleTransferData(t, [], arrivals[0].block, arrivals[0].data).0;
    && (Accepts(t, arrivals[0]) || t.recvData == [])
    && (h.registered ==> NoStray(h.t, arrivals[1..]))
  }

  lemma OneArrival(t: Core, disk: bytes, a: Arrival)
    ensures var (h, disk') := HandleTransferData(t, disk, a.block, a.data);
            && h == HandleTransferData(t, [], a.block, a.data).0
            && disk' == disk + h.t.recvData
            && h.t.recvData == if Accepts(t, a) then a.data else t.recvData
  {
  }

  lemma {:induction false} DiskGrows(t: Core, disk: bytes, arrivals: seq<Arrival>)
    ensures |Disk(t, disk, arrivals)| >= |disk| + |Accepted(t, arrivals)|
    decreases |arrivals|
  {
    if arrivals != [] {
      OneArrival(t, disk, arrivals[0]);
      var (h, disk') := HandleTransferData(t, disk, arrivals[0].block, arrivals[0].data);
      if h.registered {
        DiskGrows(h.t, disk', arrivals[1..]);
      }
    }
  }

  /** The file is what the accepted packets carry, in order, exactly when no stray packet
      came after the first data: every stray repeats the last payload in the file. */
  lemma {:induction false} UploadExactIff(t: Core, disk: bytes, arrivals: seq<Arrival>)
    ensures Disk(t, disk, arrivals) == disk + Accepted(t, arrivals) <==> NoStray(t, arrivals)
    decreases |arrivals|
  {
    if arrivals == [] {
      assert disk + [] == disk;
    } else {
      var a := arrivals[0];
      OneArrival(t, disk, a);
      var (h, disk') := HandleTransferData(t, disk, a.block, a.data);
      if h.registered {
        DiskGrows(h.t, disk', arrivals[1..]);
        UploadExactIff(h.t, disk', arrivals[1..]);
        Compare(disk, h.t.recvData, if Accepts(t, a) then a.data else [], Accepted(h.t, arrivals[1..]),
                Disk(h.t, disk', arrivals[1..]), NoStray(h.t, arrivals[1..]), Accepts(t, a) || t.recvData == []);
      } else {
        Compare(disk, h.t.recvData, if Accepts(t, a) then a.data else [], [], disk', true, Accepts(t, a) || t.recvData == []);
      }
    }
  }

  lemma Compare(disk: bytes, appended: bytes, taken: bytes, rest: bytes, final: bytes, exact: bool, kept: bool)
    requires |final| >= |disk + appended| + |rest|
    requires final == (disk + appended) + rest <==> exact
    requires kept ==> appended == taken
    requires !kept ==> appended != [] && taken == []
    ensures final == disk + (taken + rest) <==> kept && exact
  {
    assert (disk + taken) + rest == disk + (taken + rest);
  }
}
