/** Who is served: the conditions on a request, the server's configuration and the file system
    under which a transfer begins, and the ERROR that is sent otherwise. */
module Admission {
  import opened Bytes
  import opened Buffers
  import opened Options
  import opened Transfer
  import opened TftpServer
  import opened TftpCodec
  import opened Negotiation
  import opened TftpService
  import opened ServerPeers
  import Decimal

  // ---- Options -----------------------------------------------------------------------------

  /** The text of an option begins with a number within the limits (RFC 2348, 2349, 7440). */
  predicate NumberWithin(text: string, least: int, most: int) {
    var v := Decimal.ParseInt(text);
    v.Some? && least <= v.value <= most
  }

  predicate NotNegative(text: string) {
    var v := Decimal.ParseInt(text);
    v.Some? && 0 <= v.value
  }

  /** A block size above the server's maximum counts as the maximum. */
  predicate BlockSizeFits(text: string, maxBlksize: nat) {
    var v := Decimal.ParseInt(text);
    v.Some? && 8 <= (if v.value > maxBlksize then maxBlksize else v.value) <= 65464
  }

  /** Every option that the client names has a value that the server can go by. */
  predicate OptionsFit(raw: RawOptions, maxBlksize: nat) {
    && (Lookup(raw, "blksize").Some? ==> BlockSizeFits(Lookup(raw, "blksize").value, maxBlksize))
    && (Lookup(raw, "timeout").Some? ==> NumberWithin(Lookup(raw, "timeout").value, 1, 255))
    && (Lookup(raw, "tsize").Some? ==> NotNegative(Lookup(raw, "tsize").value))
    && (Lookup(raw, "windowsize").Some? ==> NumberWithin(Lookup(raw, "windowsize").value, 1, 65535))
  }

  lemma CappedLookup(raw: RawOptions, maxBlksize: nat, key: string)
    ensures Lookup(Capped(raw, maxBlksize), key) ==
            var s := Lookup(raw, key);
            if key == "blksize" && s.Some? && s.value != "" && Decimal.ParseInt(s.value).Some?
               && Decimal.ParseInt(s.value).value > maxBlksize
            then Some(Decimal.Print(maxBlksize)) else s
  {
    LookupAssign(raw, "blksize", Decimal.Print(maxBlksize), key);
  }

  /** The server takes a client's options exactly when each of them fits, and then goes by the
      values they name, and by the defaults - 512, 1, 10 seconds - for the others; in strict
      RFC 1350 mode it does not look at them. */
  lemma OptionsTakenIff(raw: RawOptions, rfc1350: bool, maxBlksize: nat)
    ensures var n := Negotiate(raw, rfc1350, maxBlksize);
            && (n.NoOptions? <==> raw == [] || rfc1350)
            && (!n.NoOptions? ==> (n.Accepted? <==> OptionsFit(raw, maxBlksize)))
            && (n.Accepted? ==>
                  && (Lookup(raw, "blksize").None? ==> n.opts.blksize == 512)
                  && (Lookup(raw, "blksize").Some? ==>
                        var v := Decimal.ParseInt(Lookup(raw, "blksize").value);
                        n.opts.blksize == if v.value > maxBlksize then maxBlksize else v.value)
                  && (Lookup(raw, "windowsize").None? ==> n.opts.windowsize == 1)
                  && (Lookup(raw, "windowsize").Some? ==>
                        Some(n.opts.windowsize) == Decimal.ParseInt(Lookup(raw, "windowsize").value))
                  && (n.opts.timeout.Some? <==> Lookup(raw, "timeout").Some?)
                  && (n.opts.timeout.Some? ==>
                        Some(n.opts.timeout.value) == Decimal.ParseInt(Lookup(raw, "timeout").value))
                  && (n.opts.tsize.Some? <==> Lookup(raw, "tsize").Some?)
                  && (n.opts.tsize.Some? ==>
                        Some(n.opts.tsize.value) == Decimal.ParseInt(Lookup(raw, "tsize").value)))
  {
    hide Decimal.Print, Decimal.ParseInt, Capped, Lookup;
    NamesDiffer();
    CappedLookup(raw, maxBlksize, "blksize");
    CappedLookup(raw, maxBlksize, "timeout");
    CappedLookup(raw, maxBlksize, "tsize");
    CappedLookup(raw, maxBlksize, "windowsize");
    Decimal.ParsePrint(maxBlksize);
    NothingIsNoNumber();
  }

  function Complaint(key: string, value: string, limits: string): string {
    "Invalid " + key + ": " + value + " (must be " + limits + ")"
  }

  /** What the server looks at for a block size. */
  function CappedText(text: string, maxBlksize: nat): string {
    var v := Decimal.ParseInt(text);
    if v.Some? && v.value > maxBlksize then Decimal.Print(maxBlksize) else text
  }

  /** The first option that does not fit is named, with its value and its limits. */
  lemma OptionsRefusedWith(raw: RawOptions, maxBlksize: nat)
    ensures var n := Negotiate(raw, false, maxBlksize);
            n.Refused? ==>
              var b, t, z, w := Lookup(raw, "blksize"), Lookup(raw, "timeout"), Lookup(raw, "tsize"), Lookup(raw, "windowsize");
              if b.Some? && !BlockSizeFits(b.value, maxBlksize) then
                n.message == Complaint("blksize", CappedText(b.value, maxBlksize), "8-65464")
              else if t.Some? && !NumberWithin(t.value, 1, 255) then n.message == Complaint("timeout", t.value, "1-255")
              else if z.Some? && !NotNegative(z.value) then n.message == Complaint("tsize", z.value, ">= 0")
              else w.Some? && n.message == Complaint("windowsize", w.value, "1-65535")
  {
    hide Decimal.Print, Decimal.ParseInt, Capped, Lookup, Complaint, Bad;
    NamesDiffer();
    CappedLookup(raw, maxBlksize, "blksize");
    CappedLookup(raw, maxBlksize, "timeout");
    CappedLookup(raw, maxBlksize, "tsize");
    CappedLookup(raw, maxBlksize, "windowsize");
    Decimal.ParsePrint(maxBlksize);
    NothingIsNoNumber();
    var capped := Capped(raw, maxBlksize);
    ComplaintIs(capped, "blksize", "8-65464");
    ComplaintIs(capped, "timeout", "1-255");
    ComplaintIs(capped, "tsize", ">= 0");
    ComplaintIs(capped, "windowsize", "1-65535");
  }

  lemma ComplaintIs(raw: RawOptions, key: string, limits: string)
    ensures Lookup(raw, key).Some? ==> Bad(raw, key, limits) == Invalid(Complaint(key, Lookup(raw, key).value, limits))
  {
  }

  lemma NothingIsNoNumber()
    ensures Decimal.ParseInt("").None?
  {
  }

  // ---- Requests ----------------------------------------------------------------------------

  /** The datagram is a request, to write or to read: opcode 1 or 2, and well formed. */
  predicate Asks(buf: bytes, write: bool) {
    && 2 <= |buf| && buf[0] == 0 && buf[1] == (if write then 2 else 1)
    && ParsePacket(buf).Parsed? && if write then ParsePacket(buf).p.Wrq? else ParsePacket(buf).p.Rrq?
  }

  /** What the server demands of it: a free place, a file inside its root, options that fit; a
      file to be read, or one to be made where that is allowed. */
  predicate Granted(c: Config, active: nat, buf: bytes, target: Target, write: bool) {
    && Asks(buf, write) && active < c.maxTransfers && target.inRoot
    && (c.rfc1350 || OptionsFit(ParsePacket(buf).p.options, c.maxBlksize))
    && if write then c.allowWrite && !target.present && target.parentWritable else target.stat.IsFile?
  }

  lemma OpcodeIs(buf: bytes, write: bool)
    requires 2 <= |buf| && ParsePacket(buf).Parsed?
    ensures (if write then ParsePacket(buf).p.Wrq? else ParsePacket(buf).p.Rrq?) ==>
              buf[0] == 0 && buf[1] == if write then 2 else 1
    ensures ReadU16(buf) == (if write then 2 else 1) <==> buf[0] == 0 && buf[1] == if write then 2 else 1
  {
    hide ParseRequest, ParseOptionList;
    ParsedKind(buf);
  }

  lemma ParsedKind(buf: bytes)
    requires 2 <= |buf| && ParsePacket(buf).Parsed?
    ensures ParsePacket(buf).p.Rrq? <==> ReadU16(buf) == 1
    ensures ParsePacket(buf).p.Wrq? <==> ReadU16(buf) == 2
  {
    hide Split, DropTrailingEmpty, CollectOptions;
  }

  lemma NoOptionsFit(maxBlksize: nat)
    ensures OptionsFit([], maxBlksize)
  {
  }

  /** A transfer begins if and only if the datagram is a request, to read or to write, that the
      server grants; it then reads or writes as asked, and counts up to 65535 once only in strict
      RFC 1350 mode. */
  lemma BeginsIff(c: Config, active: nat, buf: bytes, target: Target)
    ensures var a := Admit(c, active, buf, target);
            && (a.Some? && a.value.Begin? <==>
                Granted(c, active, buf, target, false) || Granted(c, active, buf, target, true))
            && (a.Some? && a.value.Begin? ==>
                  && (a.value.t.reading <==> Granted(c, active, buf, target, false))
                  && a.value.t.wrap == !c.rfc1350)
  {
    hide ParsePacket, SendLoop, OptionsFit, Negotiate, ReadU16;
    if 2 <= |buf| && ParsePacket(buf).Parsed? {
      OpcodeIs(buf, false);
      OpcodeIs(buf, true);
      ParsedKind(buf);
      if ParsePacket(buf).p.Rrq? || ParsePacket(buf).p.Wrq? {
        OptionsTakenIff(ParsePacket(buf).p.options, c.rfc1350, c.maxBlksize);
        NoOptionsFit(c.maxBlksize);
        if target.stat.IsFile? { FirstWindowKeeps(c, ParsePacket(buf).p, target); }
      }
    }
  }

  lemma ProduceKeeps(t: Core, chunk: bytes)
    ensures var t' := ProduceData(t, chunk).0;
            && t'.reading == t.reading && t'.wrap == t.wrap && t'.recvData == t.recvData && t'.opts == t.opts
            && t'.fileOffset == t.fileOffset && (t'.phase == t.phase || t'.phase.SendLast?)
  {
  }

  /** The first window leaves direction and numbering alone. */
  lemma {:induction false} LoopKeeps(t: Core, file: bytes, sent: nat)
    ensures var (t', ps) := SendLoop(t, file, sent);
            && t'.reading == t.reading && t'.wrap == t.wrap && t'.recvData == t.recvData
            && (t'.phase.Recv? ==> t.phase.Recv?)
            && (t'.phase.Send? || t'.phase.SendLast? ==> t.phase.Send? || t.phase.SendLast?)
            && (ps != [] ==> t.phase.Send? || t.phase.SendLast?)
    decreases if t.phase.Send? then 1 else 0, |file| - t.fileOffset
  {
    if t.phase.Send? {
      var chunk := ReadAt(file, t.fileOffset, t.opts.blksize);
      var t1 := t.(fileOffset := t.fileOffset + |chunk|);
      var (t2, p) := ProduceData(t1, chunk);
      var t3 := t2.(bytesSent := t2.bytesSent + |chunk|);
      ProduceKeeps(t1, chunk);
      hide ProduceData;
      if |chunk| != 0 && p.Some? && !t3.phase.SendLast? && sent + 1 < t.opts.windowsize {
        LoopKeeps(t3, file, sent + 1);
      }
    }
  }

  lemma FirstWindowKeeps(c: Config, p: Packet, target: Target)
    requires (p.Rrq? || p.Wrq?) && target.stat.IsFile?
    ensures var a := AdmitChecked(c, p, target);
            a.Begin? ==> a.t.reading == p.Rrq? && a.t.wrap == !c.rfc1350
  {
    hide SendLoop, Negotiate;
    forall t: Core ensures SendLoop(t, target.stat.content, 0).0.reading == t.reading
                     ensures SendLoop(t, target.stat.content, 0).0.wrap == t.wrap
    {
      LoopKeeps(t, target.stat.content, 0);
    }
  }

  /** A datagram from a peer without a transfer that begins none is answered with one ERROR,
      for the first condition it fails - or, of less than two octets, not at all. */
  lemma RefusedWith(c: Config, active: nat, buf: bytes, target: Target)
    requires !Granted(c, active, buf, target, false) && !Granted(c, active, buf, target, true)
    ensures var a := Admit(c, active, buf, target);
            var asks := Asks(buf, false) || Asks(buf, true);
            && (a.None? <==> |buf| < 2)
            && (a.Some? ==> a.value.Refuse? && a.value.error.Err?)
            && (a.Some? ==>
                  var e := a.value.error;
                  if !asks then e.code == 4
                  else if active >= c.maxTransfers then e == Err(4, "Server busy")
                  else if Asks(buf, true) && !c.allowWrite then e == Err(2, "Write requests not allowed")
                  else if !target.inRoot then e == Err(2, "Access violation")
                  else if !c.rfc1350 && !OptionsFit(ParsePacket(buf).p.options, c.maxBlksize) then e.code == 8
                  else if Asks(buf, true) then
                    e == if target.present then Err(6, "File already exists") else Err(2, "Cannot write to directory")
                  else match target.stat
                       case NotAFile => e == Err(1, "Not a file")
                       case NoEntry => e == Err(1, "File not found")
                       case NoAccess => e == Err(2, "Access denied")
                       case OtherError(m) => e == Err(0, m)
                       case _ => false)
  {
    hide ParsePacket, SendLoop, OptionsFit, Negotiate, ReadU16;
    if 2 <= |buf| && ParsePacket(buf).Parsed? {
      OpcodeIs(buf, false);
      OpcodeIs(buf, true);
      ParsedKind(buf);
      if ParsePacket(buf).p.Rrq? || ParsePacket(buf).p.Wrq? {
        OptionsTakenIff(ParsePacket(buf).p.options, c.rfc1350, c.maxBlksize);
        NoOptionsFit(c.maxBlksize);
      }
    }
  }

  // ---- Whole runs --------------------------------------------------------------------------

  /** Event j of the run was a request of this peer, to write or to read, that was granted. */
  ghost predicate GrantedAt(c: Config, es: seq<Event>, j: nat, key: Key, write: bool)
    requires j < |es|
  {
    && es[j].Received? && es[j].d.key == key
    && Granted(c, |Run(c, es[..j]).table|, es[j].d.buf, es[j].d.target, write)
  }

  ghost predicate GrantedBefore(c: Config, es: seq<Event>, n: nat, key: Key, write: bool)
    requires n <= |es|
  {
    exists j :: 0 <= j < n && GrantedAt(c, es, j, key, write)
  }

  /** A transfer that reads sends DATA, one that writes takes it, and neither does the other. */
  predicate OneWay(t: Core) {
    && (t.reading ==> !t.phase.Recv? && t.recvData == [])
    && (!t.reading ==> !t.phase.Send? && !t.phase.SendLast?)
  }

  ghost predicate TableGranted(c: Config, es: seq<Event>, n: nat)
    requires n <= |es|
  {
    var table := Run(c, es[..n]).table;
    forall key :: key in table ==> OneWay(table[key].t) && GrantedBefore(c, es, n, key, !table[key].t.reading)
  }

  lemma AckOneWay(t: Core, file: bytes, number: nat)
    requires OneWay(t)
    ensures var h := HandleTransferAck(t, file, number);
            OneWay(h.t) && h.t.reading == t.reading && (h.packets != [] ==> t.reading || h.packets[0].Err?)
            && (!t.reading ==> forall i :: 0 <= i < |h.packets| ==> !h.packets[i].Data?)
  {
    hide SendLoop;
    LoopKeeps(HandleAck(t, number).0, file, 0);
  }

  lemma DataOneWay(t: Core, number: nat, data: bytes)
    requires OneWay(t)
    ensures var (h, disk) := HandleTransferData(t, [], number, data);
            && OneWay(h.t) && h.t.reading == t.reading && (t.reading ==> disk == [])
            && forall i :: 0 <= i < |h.packets| ==> !h.packets[i].Data?
  {
  }

  lemma RouteOneWay(t: Core, buf: bytes, file: bytes)
    requires OneWay(t)
    ensures var (h, disk) := Route(t, buf, file);
            && OneWay(h.t) && h.t.reading == t.reading && (t.reading ==> disk == [])
            && (!t.reading ==> forall i :: 0 <= i < |h.packets| ==> !h.packets[i].Data?)
  {
    hide ParsePacket, HandleTransferAck, HandleTransferData, OneWay;
    if |buf| >= OPCODE_LEN {
      match ParsePacket(buf) {
        case Parsed(Ack(n)) => AckOneWay(t, file, n);
        case Parsed(Data(n, data)) => DataOneWay(t, n, data);
        case Parsed(Err(_, _)) => assert OneWay(t.(phase := Done)) by { DoneOneWay(t); }
        case _ =>
      }
    }
  }

  lemma DoneOneWay(t: Core)
    requires OneWay(t)
    ensures OneWay(t.(phase := Done))
  {
  }

  lemma ReadOneWay(wrap: bool, opts: Opts, hasOptions: bool, target: Target)
    ensures var a := BeginTransfer(Fresh(true, wrap, opts), hasOptions, target); a.Begin? ==> a.t.reading && OneWay(a.t)
  {
    hide SendLoop;
    if target.stat.IsFile? {
      var content := target.stat.content;
      var t := InitRRQ(Fresh(true, wrap, opts), hasOptions);
      LoopKeeps(AdvanceSend(t.(opts := WithSize(t.opts, |content|))).0, content, 0);
    }
  }

  lemma WriteOneWay(wrap: bool, opts: Opts, hasOptions: bool, target: Target)
    ensures var a := BeginTransfer(Fresh(false, wrap, opts), hasOptions, target);
            a.Begin? ==>
              !a.t.reading && OneWay(a.t) && forall i :: 0 <= i < |a.packets| ==> !a.packets[i].Data?
  {
  }

  lemma BeginsOneWay(c: Config, active: nat, buf: bytes, target: Target)
    ensures var a := Admit(c, active, buf, target);
            && (a.Some? && a.value.Begin? ==>
                  && OneWay(a.value.t)
                  && (!a.value.t.reading ==> forall i :: 0 <= i < |a.value.packets| ==> !a.value.packets[i].Data?))
            && (a.Some? && a.value.Refuse? ==> !a.value.error.Data?)
  {
    hide ParsePacket, Negotiate, BeginTransfer, Fresh, OneWay;
    BeginsIff(c, active, buf, target);
    if !Granted(c, active, buf, target, false) && !Granted(c, active, buf, target, true) {
      RefusedWith(c, active, buf, target);
    } else {
      var n := Negotiate(ParsePacket(buf).p.options, c.rfc1350, c.maxBlksize);
      var opts := if n.Accepted? then n.opts else DEFAULT_OPTS;
      ReadOneWay(!c.rfc1350, opts, n.Accepted?, target);
      WriteOneWay(!c.rfc1350, opts, n.Accepted?, target);
    }
  }

  /** What one datagram adds: an answer with DATA, or octets appended, only for a transfer that
      goes on or begins that way. */
  lemma MessageGranted(c: Config, table: Table, d: Datagram)
    requires d.key in table ==> OneWay(table[d.key].t)
    ensures var (table', replies, appended) := OnMessage(c, table, d);
            var sends := if d.key in table then table[d.key].t.reading else Granted(c, |table|, d.buf, d.target, false);
            var takes := if d.key in table then !table[d.key].t.reading else Granted(c, |table|, d.buf, d.target, true);
            && (d.key in table' ==> OneWay(table'[d.key].t) && if table'[d.key].t.reading then sends else takes)
            && ((exists p :: p in replies && p.Data?) ==> sends) && (appended != [] ==> takes)
  {
    hide Route, Admit, OneWay, Heard, Granted;
    if d.key in table {
      RouteOneWay(table[d.key].t, d.buf, FileOf(d.target));
    } else {
      BeginsIff(c, |table|, d.buf, d.target);
      BeginsOneWay(c, |table|, d.buf, d.target);
    }
  }

  lemma OthersUntouched(c: Config, s: State, e: Event, key: Key)
    requires key in Step(c, s, e).table && (e.Received? ==> e.d.key != key)
    ensures key in s.table && Step(c, s, e).table[key].t == s.table[key].t
  {
    hide Route, Admit, Heard;
  }

  lemma Longer(c: Config, es: seq<Event>, n: nat, key: Key, write: bool)
    requires n < |es|
    ensures GrantedBefore(c, es, n, key, write) ==> GrantedBefore(c, es, n + 1, key, write)
    ensures GrantedAt(c, es, n, key, write) ==> GrantedBefore(c, es, n + 1, key, write)
  {
    hide GrantedAt;
  }

  lemma {:induction false} AllGranted(c: Config, es: seq<Event>, n: nat)
    requires n <= |es|
    ensures TableGranted(c, es, n)
    decreases n
  {
    hide OnMessage, OnSweep, OneWay, GrantedBefore, Granted;
    if n > 0 {
      AllGranted(c, es, n - 1);
      var s, e := Run(c, es[..n - 1]), es[n - 1];
      assert es[..n][..n - 1] == es[..n - 1] && Run(c, es[..n]) == Step(c, s, e);
      var table := Run(c, es[..n]).table;
      forall key | key in table ensures OneWay(table[key].t) && GrantedBefore(c, es, n, key, !table[key].t.reading) {
        Longer(c, es, n - 1, key, !table[key].t.reading);
        if e.Received? && e.d.key == key {
          MessageGranted(c, s.table, e.d);
        } else {
          OthersUntouched(c, s, e, key);
        }
      }
    } else {
      assert es[..0] == [];
    }
  }

  /** In every run, a peer is sent DATA only after a request of its own to read a file inside the
      root that was granted, and has octets appended to a file only after one to write. */
  lemma ServedOnlyIfGranted(c: Config, es: seq<Event>, n: nat)
    requires n < |es| && es[n].Received?
    ensures var d := es[n].d;
            var (_, replies, appended) := OnMessage(c, Run(c, es[..n]).table, d);
            && ((exists p :: p in replies && p.Data?) ==> GrantedBefore(c, es, n + 1, d.key, false))
            && (appended != [] ==> GrantedBefore(c, es, n + 1, d.key, true))
  {
    hide OnMessage, OneWay, GrantedBefore, Granted, Run;
    var table, d := Run(c, es[..n]).table, es[n].d;
    AllGranted(c, es, n);
    MessageGranted(c, table, d);
    Longer(c, es, n, d.key, false);
    Longer(c, es, n, d.key, true);
  }
}
