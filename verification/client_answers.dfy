/** What the two closures of the client do with a packet, told from its fields and the numbers the
    client has counted. */
module ClientAnswers {
  import opened Bytes
  import opened Options
  import opened Transfer
  import opened TftpClient
  import opened TftpCodec
  import opened TftpRequests

  predicate Fine(options: RawOptions) {
    ValidateOptions(options).Valid?
  }

  // ---- get -----------------------------------------------------------------------------------

  /** The block size and the window that get goes by when DATA arrives. */
  function GoesBy(c: Getter): (nat, nat) {
    if !c.isOpen then (c.requested.blksize, c.requested.windowsize)
    else
      match c.validated
      case Some(opts) => (opts.blksize, opts.windowsize)
      case None => (512, 1)
  }

  /** DATA is taken exactly when it has the next number; it is acknowledged if it is short or
      fills the window, and again if it is the last one taken; a short one resolves get. */
  lemma GetTakesIff(c: Getter, block: nat, data: bytes)
    requires c.status.Running?
    ensures var (c', replies) := GetMessage(c, Data(block, data));
            var (b, w) := GoesBy(c);
            var had := if c.isOpen then c.file else [];
            var last := |data| < b;
            && c'.isOpen
            && if block == (if c.blockNum == 65535 then 1 else c.blockNum + 1) then
                 && c'.file == had + data && c'.blockNum == block && c'.bytesReceived == c.bytesReceived + |data|
                 && c'.status == (if last then Resolved else Running)
                 && replies == (if last || c.packetsInWindow + 1 >= w then [Ack(block)] else [])
                 && c'.packetsInWindow == if last || c.packetsInWindow + 1 >= w then 0 else c.packetsInWindow + 1
               else
                 && c'.file == had && c'.blockNum == c.blockNum && c'.bytesReceived == c.bytesReceived
                 && c'.status.Running? && c'.packetsInWindow == c.packetsInWindow
                 && replies == if block == c.blockNum then [Ack(block)] else []
  {
  }

  /** An OACK whose options are fine empties the file and is acknowledged; get is rejected by one
      that is not, and by an ERROR, and all else leaves it alone. */
  lemma GetHears(c: Getter, p: Packet)
    requires c.status.Running? && !p.Data?
    ensures var (c', replies) := GetMessage(c, p);
            && (c'.status.Rejected? <==> p.Err? || (p.Oack? && !Fine(p.options))) && !c'.status.Resolved?
            && (p.Oack? && Fine(p.options) ==>
                  && replies == [Ack(0)] && c'.isOpen && c'.file == []
                  && c'.validated == Some(ValidateOptions(p.options).opts) && c'.blockNum == c.blockNum
                  && c'.packetsInWindow == c.packetsInWindow && c'.bytesReceived == c.bytesReceived)
            && (!(p.Oack? && Fine(p.options)) ==> replies == [] && c'.file == c.file && c'.isOpen == c.isOpen)
            && (p.Ack? || p.Rrq? || p.Wrq? ==> c' == c)
  {
    hide ValidateOptions;
  }

  /** Of datagrams get hears DATA, ERROR and OACK; one of these that is malformed rejects it. */
  lemma GetListens(c: Getter, buf: bytes)
    ensures var kind := if |buf| < 2 then 0 else NumberAt(buf, 0);
            GetDatagram(c, buf) ==
            if !c.status.Running? || kind !in {3, 5, 6} then (c, [])
            else match ParsePacket(buf)
                 case Parsed(p) => GetMessage(c, p)
                 case _ => (c.(status := Rejected), [])
  {
    hide ParsePacket, GetMessage;
  }

  // ---- put -----------------------------------------------------------------------------------

  /** put is resolved by any ACK once everything has been sent, and rejected by an ERROR or an
      OACK whose options are not fine; it opens its file for ACK(0) or a fine OACK, and sends only
      with its file open, for an ACK or OACK. */
  lemma PutHears(c: Putter, source: bytes, p: Packet)
    requires c.status.Running?
    ensures var (c', sent) := PutMessage(c, source, p);
            && (c'.status.Resolved? <==> p.Ack? && c.offset >= |source|)
            && (c'.status.Rejected? <==> p.Err? || (p.Oack? && !Fine(p.options)))
            && (c'.isOpen <==> c.isOpen || (p.Ack? && p.block == 0) || (p.Oack? && Fine(p.options)))
            && (c'.validated ==
                if p.Oack? && Fine(p.options) then Some(ValidateOptions(p.options).opts)
                else if p.Ack? && p.block == 0 && !c.isOpen
                then Some(Opts(c.requested.blksize, c.requested.windowsize, None, None)) else c.validated)
            && (sent != [] ==> c'.isOpen && c'.status.Running? && (p.Ack? || p.Oack?))
            && (sent == [] ==> c'.offset == c.offset && c'.blockNum == c.blockNum && c'.bytesSent == c.bytesSent)
  {
    hide ValidateOptions, PutWindow;
    match p
    case Oack(options) =>
      if Fine(options) {
        WindowKeepsAll(c.(validated := Some(ValidateOptions(options).opts), isOpen := true), source, 0);
      }
    case Ack(block) =>
      WindowKeepsAll(if !c.isOpen && block == 0
                     then c.(validated := Some(WithoutOack(c.requested)), isOpen := true) else c, source, 0);
    case _ =>
  }

  lemma {:induction false} WindowKeepsAll(c: Putter, source: bytes, i: nat)
    ensures var (c', sent) := PutWindow(c, source, i);
            && c'.status == c.status && c'.isOpen == c.isOpen && c'.validated == c.validated
            && (sent == [] ==> c' == c)
    decreases WindowSize(c.validated) - i
  {
    if i < WindowSize(c.validated) {
      var chunk := ReadAt(source, c.offset, BlockSize(c.validated));
      if chunk != [] && |chunk| >= BlockSize(c.validated) {
        WindowKeepsAll(PutOne(c, chunk).0, source, i + 1);
      }
    }
  }

  /** Of datagrams put hears ACK, ERROR and OACK. */
  lemma PutListens(c: Putter, source: bytes, buf: bytes)
    ensures var kind := if |buf| < 2 then 0 else NumberAt(buf, 0);
            PutDatagram(c, source, buf) ==
            if !c.status.Running? || kind !in {4, 5, 6} then (c, [])
            else match ParsePacket(buf)
                 case Parsed(p) => PutMessage(c, source, p)
                 case _ => (c.(status := Rejected), [])
  {
    hide ParsePacket, PutMessage;
  }

  // ---- Texts ---------------------------------------------------------------------------------

  /** An ERROR without a message of its own carries the text of section 5 of RFC 1350. */
  lemma DefaultTexts()
    ensures DefaultMessage(0) == "Not defined, see error message (if any)." && DefaultMessage(1) == "File not found."
    ensures DefaultMessage(2) == "Access violation." && DefaultMessage(3) == "Disk full or allocation exceeded."
    ensures DefaultMessage(4) == "Illegal TFTP operation." && DefaultMessage(5) == "Unknown transfer ID."
    ensures DefaultMessage(6) == "File already exists." && DefaultMessage(7) == "No such user."
  {
  }
}
