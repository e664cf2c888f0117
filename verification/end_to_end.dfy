/** From the client's first datagram to the states that the transfer theorems start from. */
module EndToEnd {
  import opened Bytes
  import opened Ascii
  import opened Buffers
  import opened Options
  import opened Transfer
  import opened TftpServer
  import opened TftpCodec
  import opened Negotiation
  import opened TftpService
  import Download
  import DownloadFifo
  import UploadFifo

  /** The options a server goes by: its own in strict RFC 1350 mode, else the client's within
      its limits. */
  function Agreeable(c: Config, requested: Opts, tsize: nat): Opts {
    if c.rfc1350 then DEFAULT_OPTS
    else Asked(requested, tsize).(blksize := Settled(requested.blksize, c.maxBlksize))
  }

  /** The server answers a request; in strict mode it does not look at the options. */
  predicate Answers(c: Config, requested: Opts) {
    c.rfc1350 || Negotiable(requested, c.maxBlksize)
  }

  /** A client's `get`, served: the octets of its RRQ are admitted exactly when the options
      can be negotiated, the server's transfer is the one the download theorems start from,
      and the answer is the OACK, or without options the first window, they start with. */
  lemma GetOpensDownload(filename: string, mode: string, requested: Opts, c: Config, active: nat, file: bytes)
    requires Clean(filename) && filename != "" && LegalMode(mode) && active < c.maxTransfers
    ensures var request := PacketBytes(Rrq(filename, mode, ValidatedToRaw(Asked(requested, 0))));
            var opts, options := Agreeable(c, requested, |file|), !c.rfc1350;
            var s := DownloadFifo.Open(file, opts, options, requested, options);
            var a := Admit(c, active, request, Target(true, IsFile(file), true, true));
            if Answers(c, requested) then
              && Download.Served(opts, options) && (options ==> Agreed(opts, requested, true))
              && a == Some(Begin(s.server, |file|, s.toClient))
              && s.server == Download.Start(file, opts, options, requested, options, 1).server
            else a.Some? && a.value.Refuse?
  {
    hide PacketBytes, SendLoop, LegalMode, Clean, ParsePacket, ValidatedToRaw, Negotiable, ValidateOptions, Capped;
    NegotiationAgrees(filename, mode, requested, c.maxBlksize, |file|);
    ServerReads(requested, c.maxBlksize, 0);
    RequestOpcode(Rrq(filename, mode, ValidatedToRaw(Asked(requested, 0))));
  }

  /** A client's `put`, served: likewise for the octets of its WRQ and the upload theorem. */
  lemma PutOpensUpload(filename: string, mode: string, requested: Opts, c: Config, active: nat, source: bytes)
    requires Clean(filename) && filename != "" && LegalMode(mode) && active < c.maxTransfers && c.allowWrite
    ensures var request := PacketBytes(Wrq(filename, mode, ValidatedToRaw(Asked(requested, |source|))));
            var opts, options := Agreeable(c, requested, |source|), !c.rfc1350;
            var s := UploadFifo.Open(opts, options, requested, options);
            var a := Admit(c, active, request, Target(true, NoEntry, false, true));
            if Answers(c, requested) then
              (options ==> Agreed(opts, requested, true)) && a == Some(Begin(s.server, 0, s.toClient))
            else a.Some? && a.value.Refuse?
  {
    var asked := Asked(requested, |source|);
    var p := Wrq(filename, mode, ValidatedToRaw(asked));
    var target := Target(true, NoEntry, false, true);
    LegalModesLower(mode);
    ModeIsClean(mode);
    RawIsGood(asked);
    RequestRoundTrip(true, filename, mode, ValidatedToRaw(asked));
    ServerReads(requested, c.maxBlksize, |source|);
    RequestOpcode(p);
    hide ParsePacket, PacketBytes, Negotiate, ValidatedToRaw, Clean, Negotiable, LegalMode;
    assert Admit(c, active, PacketBytes(p), target) == Some(AdmitRequest(c, active, p, target));
  }

  lemma RequestOpcode(p: Packet)
    requires p.Rrq? || p.Wrq?
    ensures |PacketBytes(p)| >= 2 && ReadU16(PacketBytes(p)) == if p.Rrq? then RRQ else WRQ
  {
    var tail := NullString(p.filename) + NullString(p.mode) + OptionPairs(p.options);
    var opcode := if p.Rrq? then RRQ else WRQ;
    assert PacketBytes(p) == U16(opcode) + tail;
    ReadU16Of(opcode, tail);
  }
}
