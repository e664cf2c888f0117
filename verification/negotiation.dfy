/** Option negotiation from end to end: the client's request through the wire to the server,
    the server's answer through the wire to the client (RFC 2347). */
module Negotiation {
  import opened Bytes
  import opened Ascii
  import opened Decimal
  import opened Options
  import opened Transfer
  import opened TftpCodec

  datatype Negotiated = NoOptions | Accepted(opts: Opts) | Refused(message: string)

  /** The server's cap on a requested block size. */
  function Capped(raw: RawOptions, maxBlksize: nat): RawOptions {
    var s := Lookup(raw, "blksize");
    if s.Some? && s.value != "" then
      var requested := ParseInt(s.value);
      if requested.Some? && requested.value > maxBlksize then Assign(raw, "blksize", Print(maxBlksize)) else raw
    else raw
  }

  function Negotiate(raw: RawOptions, rfc1350: bool, maxBlksize: nat): Negotiated {
    if raw == [] || rfc1350 then NoOptions
    else
      match ValidateOptions(Capped(raw, maxBlksize))
      case Valid(opts) => Accepted(opts)
      case Invalid(message) => Refused(message)
  }

  /** Before it answers a read request, the server fills in the size of the file. */
  function WithSize(opts: Opts, size: nat): Opts {
    if opts.tsize == Some(0) then opts.(tsize := Some(size)) else opts
  }

  /** The options that `get` asks for with a tsize of 0, and `put` with the size of its file. */
  function Asked(requested: Opts, tsize: nat): Opts {
    Opts(requested.blksize, requested.windowsize, requested.timeout, Some(tsize))
  }

  /** The block size the server settles on.  The default is never sent, so never capped. */
  function Settled(blksize: nat, maxBlksize: nat): nat {
    if blksize == DEFAULT_BLOCK_SIZE then blksize else Min(blksize, maxBlksize)
  }

  /** What the server accepts of a client's request. */
  predicate Negotiable(requested: Opts, maxBlksize: nat) {
    Acceptable(requested.(blksize := Settled(requested.blksize, maxBlksize)))
  }

  lemma {:induction false} LookupAssign(raw: RawOptions, key: string, value: string, other: string)
    ensures Lookup(Assign(raw, key, value), other) == if other == key then Some(value) else Lookup(raw, other)
    decreases |raw|
  {
    if raw == [] {
      assert [Entry(key, value)][1..] == [];
    } else if raw[0].key == key {
      assert ([Entry(key, value)] + raw[1..])[1..] == raw[1..];
    } else {
      LookupAssign(raw[1..], key, value, other);
      assert ([raw[0]] + Assign(raw[1..], key, value))[1..] == Assign(raw[1..], key, value);
    }
  }

  lemma PrintIsClean(n: nat)
    ensures Clean(Print(n)) && Print(n) != ""
  {
    var s := Print(n);
    forall i | 0 <= i < |s| ensures 0 < s[i] as int < 128 {
      assert IsDigit(s[i]);
    }
  }

  /** The raw form of options can go over the wire. */
  lemma RawIsGood(opts: Opts)
    ensures GoodNames(ValidatedToRaw(opts)) && LastNonEmpty(ValidatedToRaw(opts))
    ensures opts.tsize.Some? ==> ValidatedToRaw(opts) != []
  {
    hide Decimal.Print, GoodNames, LastNonEmpty;
    NamesDiffer();
    var b := Maybe(opts.blksize != DEFAULT_BLOCK_SIZE, "blksize", opts.blksize);
    var t := b + Maybe(opts.timeout.Some?, "timeout", if opts.timeout.Some? then opts.timeout.value else 0);
    var z := t + Maybe(opts.tsize.Some?, "tsize", if opts.tsize.Some? then opts.tsize.value else 0);
    NothingIsGood();
    assert [] + b == b;
    MaybeIsGood([], opts.blksize != DEFAULT_BLOCK_SIZE, "blksize", opts.blksize);
    MaybeIsGood(b, opts.timeout.Some?, "timeout", if opts.timeout.Some? then opts.timeout.value else 0);
    MaybeIsGood(t, opts.tsize.Some?, "tsize", if opts.tsize.Some? then opts.tsize.value else 0);
    MaybeIsGood(z, opts.windowsize != DEFAULT_WINDOW_SIZE, "windowsize", opts.windowsize);
  }

  lemma NothingIsGood()
    ensures GoodNames([]) && LastNonEmpty([])
  {
  }

  /** One more option, with a name of its own. */
  lemma MaybeIsGood(raw: RawOptions, present: bool, key: string, value: nat)
    requires GoodNames(raw) && LastNonEmpty(raw) && KnownName(key) && forall i :: 0 <= i < |raw| ==> raw[i].key != key
    ensures GoodNames(raw + Maybe(present, key, value)) && LastNonEmpty(raw + Maybe(present, key, value))
  {
    hide Decimal.Print, Clean, KnownName;
    PrintIsClean(value);
    if !present {
      assert raw + Maybe(present, key, value) == raw;
    }
  }

  /** The server's reading of a client's options. */
  lemma ServerReads(requested: Opts, maxBlksize: nat, tsize: nat)
    ensures var n := Negotiate(ValidatedToRaw(Asked(requested, tsize)), false, maxBlksize);
            && (n.Accepted? <==> Negotiable(requested, maxBlksize))
            && !n.NoOptions?
            && (n.Accepted? ==> n.opts == Asked(requested, tsize).(blksize := Settled(requested.blksize, maxBlksize)))
  {
    var asked := Asked(requested, tsize);
    var raw := ValidatedToRaw(asked);
    RawIsGood(asked);
    RawFields(asked);
    NamesDiffer();
    var b := Given(requested.blksize, DEFAULT_BLOCK_SIZE);
    if b.Some? {
      ParsePrint(requested.blksize);
      LookupAssign(raw, "blksize", Print(maxBlksize), "blksize");
      LookupAssign(raw, "blksize", Print(maxBlksize), "timeout");
      LookupAssign(raw, "blksize", Print(maxBlksize), "tsize");
      LookupAssign(raw, "blksize", Print(maxBlksize), "windowsize");
    }
    var settled := if b.Some? then Some(Settled(requested.blksize, maxBlksize) as nat) else None;
    ValidateFields(Capped(raw, maxBlksize), settled, requested.timeout, Some(tsize),
                   Given(requested.windowsize, DEFAULT_WINDOW_SIZE));
  }

  /** After the request, and the answer if there is one, have both been printed, sent and
      parsed, the two ends hold the same options: the window and timeout asked for, the
      size of the file, and a block size within what was asked. */
  lemma NegotiationAgrees(filename: string, mode: string, requested: Opts, maxBlksize: nat, size: nat)
    requires Clean(filename) && filename != "" && LegalMode(mode)
    ensures var request := Rrq(filename, mode, ValidatedToRaw(Asked(requested, 0)));
            && ParsePacket(PacketBytes(request)) == Parsed(request)
            && var n := Negotiate(request.options, false, maxBlksize);
               && (n.Accepted? <==> Negotiable(requested, maxBlksize))
               && (n.Accepted? ==>
                     var server := WithSize(n.opts, size);
                     var answer := Oack(ValidatedToRaw(server));
                     && ParsePacket(PacketBytes(answer)) == Parsed(answer)
                     && ValidateOptions(answer.options) == Valid(server)
                     && Acceptable(server)
                     && server.blksize == Settled(requested.blksize, maxBlksize) <= requested.blksize
                     && server.windowsize == requested.windowsize
                     && server.timeout == requested.timeout
                     && server.tsize == Some(size))
  {
    LegalModesLower(mode);
    ModeIsClean(mode);
    RawIsGood(Asked(requested, 0));
    RequestRoundTrip(false, filename, mode, ValidatedToRaw(Asked(requested, 0)));
    ServerReads(requested, maxBlksize, 0);
    if Negotiable(requested, maxBlksize) {
      var server := WithSize(Asked(requested, 0).(blksize := Settled(requested.blksize, maxBlksize)), size);
      RawIsGood(server);
      OackRoundTrip(ValidatedToRaw(server));
      ValidateRaw(server);
    }
  }

  lemma ModeIsClean(mode: string)
    requires LegalMode(mode)
    ensures Clean(mode)
  {
  }

  /** The server's maximum is kept exactly when it is not below a default that was asked
      for: the client does not send 512, and what is not sent is not capped. */
  lemma CapHolds(requested: Opts, maxBlksize: nat)
    requires Negotiable(requested, maxBlksize)
    ensures Negotiate(ValidatedToRaw(Asked(requested, 0)), false, maxBlksize).Accepted?
    ensures Negotiate(ValidatedToRaw(Asked(requested, 0)), false, maxBlksize).opts.blksize <= maxBlksize
            <==> requested.blksize != DEFAULT_BLOCK_SIZE || DEFAULT_BLOCK_SIZE <= maxBlksize
  {
    ServerReads(requested, maxBlksize, 0);
  }
}
