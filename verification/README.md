# Verification of the network-boot servers

A Dafny model of the repository's TFTP and DHCP servers, its TFTP client and the codecs under
them, with proofs about whole runs. It is checked with

    dafny verify dfyconfig.toml

## What is modelled

**TFTP** (`src/tftp`). A transfer is the class of `state.mts` with the same fields and
methods; each method is proved against a function on the value `Core`, and the theorems are
about those functions. The server's handlers, its table of transfers and the two closures of
the client are modelled the same way. `Download` and `Upload` put server and client on a network that
loses, repeats and reorders everything already sent; `DownloadFifo`, `DownloadMismatch`,
`UploadFifo` and `UploadMismatch` put them on a lossless FIFO in which the scheduler picks who moves.
`Octets` says the same of the octets, `ServerPeers` puts many peers before one server.

**DHCP** (`src/dhcp`). The server is a class with the four tables; `DhcpTables` says what a
message does to them as a function of the tables, the packet, the time and the random source.
`DhcpRuns`, `DhcpExclusive`, `DhcpOffers` and `DhcpStrays` are about all runs and all messages. `DhcpCodec`
and `DhcpWire` connect the tables to the octets of request and reply.

**Arithmetic and encodings** (`src/shared`). Addresses, subnets, bit operations on unsigned
32-bit integers (written out digit by digit), decimal and hexadecimal numbers, NUL-terminated
strings, option lists, the IP checksum.

| files | about |
|---|---|
| `blocks`, `emissions`, `transfer` | block numbers and blocks of a file, the transfer state machine |
| `tftp_server`, `server_runs`, `server_windows`, `tftp_service`, `server_peers`, `admission`, `server_watchdog` | windows, any sequence of ACKs, the server's table and its peers |
| `tftp_client`, `client_answers` | `get` and `put` |
| `download`, `download_limit`, `download_repeats`, `download_fifo`, `download_mismatch` | whole downloads |
| `upload`, `upload_limit`, `upload_fifo`, `upload_mismatch`, `upload_repeats` | whole uploads |
| `options`, `negotiation`, `tftp_codec`, `tftp_requests`, `end_to_end`, `octets` | options and packets of TFTP |
| `dhcp_packet`, `dhcp_tables`, `dhcp_server`, `dhcp_answers`, `random_addresses` | the DHCP server and its answers |
| `dhcp_runs`, `dhcp_exclusive`, `dhcp_offers`, `dhcp_strays` | its runs |
| `encoding`, `dhcp_codec`, `dhcp_requests`, `dhcp_wire`, `checksum` | DHCP on the wire |
| `bytes`, `buffers`, `ascii`, `decimal`, `hex`, `numerals`, `bits`, `network` | what the others stand on |

## Where the code differs from its documentation

The model follows the code. Each of these is a theorem or part of one:

- A file whose size is a multiple of the block size, the empty one included, gets no closing
  empty DATA packet, so its transfer does not complete (section 6 of RFC 1350 wants one).
- An upload stalls in the window that passes block number 65535.
- Every ACK in the sending state releases a window, a duplicate one too.
- A stray DATA packet appends the last payload to the uploaded file again; so no upload of a
  full block or more is safe against repeated packets.
- A `put` takes any ACK for the last one once it has sent everything.
- A stale ACK, taken for a duplicate, releases another window.
- A second OACK truncates the file that is being downloaded.
- A `get` without an OACK goes by the block and window size it asked for, not by 512 and 1.
- Offered addresses need not be in `allocatedIPs`.
- The server's maximum block size does not bind a client that wants the default of 512.
- A newcomer that asks for the address it was offered gets a different one, unless it waits
  until the offer has expired.
- "Reserved IPs are always offered to their MAC, never to others" (`src/dhcp/server.mts:567`)
  is false: the second half holds only as long as the address stays in `allocatedIPs`.
- The timeout that the server is configured with has no effect: without the option it is 10 seconds.
- A lease time above 900 seconds promises the client more than the server keeps.

## Model

| member | source | states |
|---|---|---|
| Blocks.BlockNumberingAgrees | src/tftp/state.mts:341-348 | the sender's and the receiver's increment-and-reset, the downloading client's expected-next rule and the uploading client's closed form all give block n the number ((n-1) mod 65535)+1, for every n |
| Blocks.WireAliases | src/tftp/client.mts:262-264 | two blocks carry the same number on the wire exactly when they are a multiple of 65535 apart |
| Transfer.ReblockingConserves | src/tftp/state.mts:335-366 | for chunks of any sizes, payloads and what is left in the buffer are the input, every payload but the last is exactly a block under its wire number, and the state becomes SendLast exactly at the first short payload - if and only if the packets can be numbered; in strict mode the one after 65535 throws |
| Transfer.TFTPTransfer.ProduceDataPacket | src/tftp/state.mts:335-366 | one packet from buffer and chunk: new buffer, number, count and state, and no packet when strict mode runs out of numbers |
| Transfer.TFTPTransfer.HandleACK | src/tftp/state.mts:404-444 | every branch of an ACK in every state, mismatches ending in Done, with the watchdog reset |
| Transfer.TFTPTransfer.HandleDATA | src/tftp/state.mts:453-510 | every branch of DATA in every state: duplicate, mismatch, oversize, window end, last block |
| Transfer.TFTPTransfer.Advance | src/tftp/state.mts:273-306 | the OACK, ACK(0) or ERROR that a state sends, and the state it goes to |
| TftpServer.WindowSent | src/tftp/server.mts:468-509 | the read-and-send loop in closed form: exactly the next min(windowsize, blocks left) blocks of the file, in order, and offset, bytes sent, count and state that agree with them; strict mode ends in an ERROR at packet 65536 |
| TftpService.TFTPServer.SendDataBlocks | src/tftp/server.mts:468-520 | the loop over the transfer object sends what the specification of a window says, and leaves the object in its state |
| ServerRuns.OneWindowPerAck | src/tftp/server.mts:580-617 | after any sequence of ACKs, new, repeated or wrong, the server has sent exactly the first min(windows * windowsize, blocks) blocks of the file once each under their wire numbers, one window for every ACK (a duplicate too), and fileOffset = bytesSent = bytes emitted; once the transfer is over only ERRORs follow |
| ServerWindows.OneWindowUnderWayIff | src/tftp/state.mts:404-444 | as long as a download goes on, at most windowsize blocks are sent and not acknowledged at every moment, if and only if every ACK names the block sent last or finds nothing left to send; so a stale ACK, accepted as a duplicate, breaks it |
| TftpService.TFTPServer.HandleMessage | src/tftp/server.mts:220-246 | a datagram from any peer: what is answered, what is appended, whether the transfer stays, when its watchdog is reset; no other peer's transfer is touched and the table keeps to its limit |
| TftpService.TFTPServer.OnDatagram | src/tftp/server.mts:145-149 | the listener: the table as a value, the answer and the appended octets after a datagram are those of a function of the table before |
| TftpService.TFTPServer.OnTimer | src/tftp/server.mts:795-797 | the same for a sweep |
| ServerPeers.IsolationIff | src/tftp/server.mts:220-246 | in any run of datagrams and sweeps the server is to each peer, at every moment, what it would be without all others - the same answers, appended octets, transfer and watchdog - if and only if no request of the peer has found all places taken |
| ServerPeers.IsolatedWithRoom | src/tftp/server.mts:251-275 | so it is when no more peers take part than there are places |
| TftpService.TFTPServer.AcceptRequest | src/tftp/server.mts:251-360 | the checks of a request in their order: it is refused with the first ERROR that applies and the table stays, or it gets its own new transfer, initialised, watched and answered as specified; all others stay |
| Admission.BeginsIff | src/tftp/server.mts:251-448 | a transfer begins if and only if the datagram is a well-formed request with opcode 1 or 2, a place is free, the file lies inside the root, every option named has a value the server can go by (or strict mode), and it is a file to be read, or one that is not there, in a directory that can be written, where writing is allowed; it then goes the way asked for |
| Admission.RefusedWith | src/tftp/server.mts:251-448 | otherwise, from two octets on, one ERROR is sent, with the code of the first condition that fails: 4, 2, 8, then 1, 2 or 0 for a read and 6 or 2 for a write |
| Admission.OptionsTakenIff | src/tftp/protocol.mts:476-526 | options are taken if and only if each value begins with a number within 8-65464 (after the cap), 1-255, 0 and above, 1-65535; the values named are then gone by, and 512 and 1 for the others |
| Admission.OptionsRefusedWith | src/tftp/protocol.mts:484-523 | the first option that does not fit is named in the ERROR, with its value and its limits |
| Admission.ServedOnlyIfGranted | src/tftp/server.mts:251-360 | in every run of the server with any peers, DATA goes only to a peer that had a request to read granted before, and octets are appended only for one that had a request to write granted |
| TftpService.TFTPServer.HandleRRQ | src/tftp/server.mts:365-415 | for every answer of the file system: an ERROR and the transfer removed, or the size of the file in the options and the OACK or the first window to the client |
| TftpService.TFTPServer.HandleWRQ | src/tftp/server.mts:420-448 | likewise for a file to be written: an ERROR, or the OACK or ACK(0) |
| TftpService.TFTPServer.HandleTransferACK | src/tftp/server.mts:580-617 | state, packets, registration and watchdog after an ACK |
| TftpService.TFTPServer.HandleTransferDATA | src/tftp/server.mts:622-665 | state, packets, registration, watchdog and the appended octets after DATA, the receive buffer included when the packet was refused |
| TftpRequests.PlaceLostIff | src/tftp/server.mts:527-665 | a peer loses its transfer exactly by an ERROR, an ACK that ends it or names neither the block sent last nor the one before, or DATA that is the short last block, too long, or neither the block awaited nor the one before; other datagrams change nothing |
| TftpRequests.AckIsServedFrom | src/tftp/server.mts:580-617 | an ACK of a peer with a transfer is answered from the file it asked for, by what the handler makes of its number, and watched from now |
| TftpRequests.DataIsTaken | src/tftp/server.mts:622-665 | the same for DATA, its payload and what is appended |
| TftpService.TFTPServer.CollectGarbage | src/tftp/server.mts:803-823 | each transfer timed out at the sweep counts a retry or is dropped, each other one is unchanged: one step of the watchdog for every transfer |
| TftpService.NotDroppedEarly | src/tftp/state.mts:207-221 | in any run of packets and sweeps, however often the sweeps come, a transfer stays if each comes at most (maxRetries+1) timeouts after its peer was last heard of |
| TftpService.DroppedInTime | src/tftp/state.mts:207-221 | a transfer whose peer has fallen silent is dropped by maxRetries+1 sweeps later than that, whatever sweeps came before or between |
| ServerWatchdog.SweepIs | src/tftp/state.mts:207-221 | a sweep counts a retry against exactly the peers silent for longer than their timeout - as negotiated, or 10 seconds - times the retries counted and one, and drops exactly those of them that have none left |
| ServerWatchdog.KeptUntilDeadline | src/tftp/state.mts:207-221 | in every run of the server a peer that has been heard of keeps its transfer as long as no sweep comes later than that timeout times maxRetries and one |
| ServerWatchdog.GoneAfterDeadline | src/tftp/state.mts:207-221 | in every run of the server a peer that falls silent has lost its place after maxRetries and one sweeps later than that |
| TftpClient.GetTransfer.OnDatagram | src/tftp/client.mts:193-307 | the whole listener of get, octets included: foreign hosts and ports, short and unparsable datagrams, the new state, at most one reply, retries, and that the reply is what the timer will repeat |
| TftpClient.GetTransfer.OnTimeout | src/tftp/client.mts:178-191 | the timer repeats the last packet, or gives up, and changes nothing else |
| TftpClient.PutTransfer.NextWindow | src/tftp/client.mts:379-408 | the window loop of put sends what the specification of a window says; the last packet sent is the one to repeat |
| TftpClient.PutTransfer.OnDatagram | src/tftp/client.mts:410-487 | the whole listener of put, likewise |
| TftpClient.PutTransfer.OnTimeout | src/tftp/client.mts:364-377 | the timer repeats the last packet, or gives up, and changes nothing else |
| TftpClient.PutWindowSent | src/tftp/client.mts:379-408 | that loop in closed form: exactly the next min(windowsize, blocks left) blocks of the local file under their wire numbers |
| ClientAnswers.GetTakesIff | src/tftp/client.mts:247-303 | DATA is taken exactly when it has the number next to the last one taken, 1 after 65535; file, counters, window, ACK and end of get follow from its length, the block size and the window gone by |
| ClientAnswers.GetHears | src/tftp/client.mts:205-246 | get is rejected exactly by an ERROR and by an OACK with a bad option; a good one empties the file and is acknowledged |
| ClientAnswers.GetListens | src/tftp/client.mts:193-246 | of all datagrams get hears opcodes 3, 5 and 6, and is rejected by a malformed one of them |
| ClientAnswers.PutHears | src/tftp/client.mts:428-485 | put is resolved exactly by an ACK once all has been sent, rejected exactly by an ERROR or a bad OACK, opens its file exactly for ACK(0) or a good OACK, and sends only with it open |
| ClientAnswers.PutListens | src/tftp/client.mts:410-487 | of all datagrams put hears opcodes 4, 5 and 6 |
| DownloadLimit.DownloadSafeIff | src/tftp/client.mts:247-303 | with DATA and ACK lost, repeated, reordered and retransmitted at will, what get has written is always a prefix of the server's file, and all of it when get resolves, if and only if the file fits: for equal block sizes if it is shorter than 65535 blocks, and for any others an exact limit too |
| DownloadLimit.WithoutOackSafeIff | src/tftp/client.mts:251-256 | against a server that sends no OACK: safe in every run if and only if the file has at most 512 octets or the client asked for at most 512 and the file is shorter than 65534 blocks of 512 and one of the client's |
| Download.DownloadSafeWhenNear | src/tftp/client.mts:262-277 | the same for files of any size, through any number of wraps, in every run in which no DATA arrives 65535 or more blocks from the one awaited |
| Download.StepKeepsInv | src/tftp/server.mts:580-617 | every delivery, timer and collection keeps the invariant that ties the server's log, the client's file and both block numbers together |
| DownloadRepeats.RepeatedOackSafeIff | src/tftp/client.mts:213-230 | if the OACK can arrive twice or more often, a download is safe in every run if and only if the file is at most one block long or consists of fewer than 65535 whole blocks that are all alike, for all options |
| DownloadFifo.DownloadCompletesIff | src/tftp/client.mts:262-302 | on a lossless FIFO every schedule comes to rest; files equal, no error on either side, bytesSent = size, size/blksize+1 DATA and one ACK per window, if and only if size mod blksize is not 0 and the numbers do not run out in strict mode |
| DownloadFifo.TurnKeepsInv | src/tftp/server.mts:580-617 | every turn of either side keeps the invariant and lowers a measure |
| DownloadMismatch.WithoutOackCompletesIff | src/tftp/client.mts:251-302 | on a lossless FIFO without an OACK every schedule comes to rest; success if and only if 0 < size mod 512 < requested blksize and either size < 512 or blksize is at most 512, windowsize at most 1 and the numbers suffice |
| UploadFifo.UploadCompletesIff | src/tftp/state.mts:453-510 | the same for uploads: the server's file equals the client's and ACKs went out exactly at the multiples of windowsize and for the last block, if and only if size mod blksize is not 0 and the blocks fit into the windows that begin by number 65535 |
| UploadFifo.AckAtWindowEnd | src/tftp/state.mts:496-497 | the test for the end of a window holds exactly at a multiple of windowsize that is at most 65535; in the window that passes 65535 it never does |
| UploadRepeats.UploadExactIff | src/tftp/server.mts:625-631 | the uploaded file is what the accepted packets carry if and only if no stray DATA came after the first data: each stray appends the last payload again |
| UploadMismatch.WithoutOackUploadsIff | src/tftp/client.mts:460-485 | on a lossless FIFO without an OACK every schedule comes to rest; success if and only if the file is one block, short for the server and not longer than the client's, or the client asked for blocks of 512, the last one is short, and the 65536 windows that ACKs release (in strict mode the numbers) hold it |
| Upload.UploadExactOnNetIff | src/tftp/server.mts:622-665 | with packets lost, repeated, reordered and retransmitted at will, for files of any size: while no DATA arrives 65535 or more blocks from the one awaited, the server's file is exactly the blocks taken if and only if no DATA that it does not wait for reaches it after the first |
| Upload.ResolvedIsDelivered | src/tftp/client.mts:469-485 | if besides no reply arrives twice, a put that resolves has delivered its file |
| UploadLimit.UploadPrefixSafeIff | src/tftp/server.mts:622-665 | the server's file is a beginning of the client's in every run of that network if and only if the file is shorter than one block |
| UploadLimit.UploadResolvedSafeIff | src/tftp/client.mts:469-485 | put resolves only with its file delivered in every run if and only if the file is shorter than one block and the server sent an OACK, or empty: any ACK will do |
| TftpCodec.RequestRoundTrip | src/tftp/protocol.mts:293-380 | any RRQ or WRQ parses back to itself if and only if its file has a name, seven-bit and without NUL, the mode is legal, the options are known and different, their values seven-bit and without NUL, and the last not empty |
| TftpCodec.OackRoundTrip | src/tftp/protocol.mts:452-463 | any OACK parses back to itself if and only if it has options, known and different, with such values |
| TftpCodec.NumberedRoundTrip | src/tftp/protocol.mts:390-421 | DATA and ACK parse back to themselves, for every number and payload |
| TftpCodec.ErrorRoundTrip | src/tftp/protocol.mts:428-445 | an ERROR parses back to itself if and only if its message is seven-bit and without NUL |
| TftpCodec.EncodeRequest | src/tftp/protocol.mts:163-195 | the buffer, written at a moving offset, is exactly opcode, name, mode and option pairs |
| TftpCodec.EncodeOACK | src/tftp/protocol.mts:250-260 | the buffer is exactly the opcode and the option pairs |
| TftpCodec.EncodeERROR | src/tftp/protocol.mts:230-245 | the buffer is exactly opcode, code and the message or its default |
| TftpCodec.SplitNullStrings | src/tftp/protocol.mts:81-98 | the loop cuts the buffer at every NUL, with a remainder if it does not end in one |
| TftpCodec.ParseRequestPayload | src/tftp/protocol.mts:293-334 | the parser meets the grammar of a request in every case, malformed ones included |
| TftpCodec.ParseOackPayload | src/tftp/protocol.mts:452-463 | the parser meets the grammar of an OACK in every case |
| TftpRequests.KindIs | src/tftp/protocol.mts:269-288 | what a datagram is follows from its first two octets and its length, for all datagrams |
| TftpRequests.RequestIs | src/tftp/protocol.mts:293-334 | a request is read if and only if it has a file name, a mode octet or netascii in any case, and an even number of strings; of each known option, named in any case, the last value counts, and others are ignored |
| TftpRequests.RequestOnTheWire | src/tftp/protocol.mts:293-380 | those strings are the ones that follow the opcode, each with a NUL behind it |
| TftpRequests.OackIs | src/tftp/protocol.mts:452-463 | the same for the options of an OACK |
| Ascii.DecodeEncode | src/tftp/protocol.mts:70-75 | a string survives the octets exactly when it is seven-bit |
| Decimal.ParsePrint | src/tftp/protocol.mts:541-562 | a printed number parses back to itself |
| Numerals.ParseIntIs | src/tftp/protocol.mts:484-523 | parseInt of any blanks, sign, digits and rest is the number that the digits spell, negated by a minus sign, and no number without digits |
| Options.ValidateRaw | src/tftp/protocol.mts:476-526 | validation undoes the conversion to strings, for exactly the options it accepts |
| Negotiation.NegotiationAgrees | src/tftp/server.mts:306-323 | through print, wire and parse both ways, the server accepts exactly the negotiable requests and then both ends hold the same options: window and timeout as asked, blksize at most what was asked, tsize the real size |
| Negotiation.CapHolds | src/tftp/server.mts:312-318 | the server's maximum block size is kept if and only if the client did not ask for a default above it (the default is not sent and so not capped) |
| EndToEnd.GetOpensDownload | src/tftp/server.mts:251-360 | the octets of the client's RRQ are admitted if and only if the options can be negotiated (a strict server ignores them), and then lead to the very states that the download theorems start from |
| EndToEnd.PutOpensUpload | src/tftp/server.mts:420-448 | the same for the octets of the client's WRQ and the state that the upload theorem starts from |
| Octets.GetOnTheWireSafeIff | src/tftp/server.mts:580-617 | from the octets of the RRQ on, with every packet as its octets on a network that loses, repeats and reorders them: the runs coincide with those on packets, and what get has written is right in all of them if and only if the file is shorter than 65535 of the blocks settled on (of a strict server: within the limit without an OACK) |
| DhcpServer.DHCPServer.HandleMessage | src/dhcp/server.mts:210-241 | what a message does to the four tables and what is answered, for every packet, time and random source |
| DhcpServer.DHCPServer.HandleDiscover | src/dhcp/server.mts:246-294 | the tables and the reply after a DISCOVER |
| DhcpServer.DHCPServer.HandleRequest | src/dhcp/server.mts:299-396 | the tables and the reply after a REQUEST, every refusal included |
| DhcpAnswers.SilentIff | src/dhcp/server.mts:210-304 | exactly these messages are passed over: neither type 1 nor 3; no PXE client where only those are served; a REQUEST that names another server. The tables stay as they are, but for the collection before a REQUEST |
| DhcpAnswers.RefusedIff | src/dhcp/server.mts:306-331 | a NAK answers exactly a REQUEST for us of an address outside the subnet or in another client's live lease |
| DhcpAnswers.OfferedIff | src/dhcp/server.mts:246-294 | an OFFER names an address exactly when it is the client's reservation, else that of its live lease, else the random one |
| DhcpAnswers.AckedIff | src/dhcp/server.mts:333-396 | an ACK names the address asked for exactly when that is free and in the subnet, and otherwise the one the server has for the client |
| DhcpAnswers.AfterOffer | src/dhcp/server.mts:246-261 | the tables after an OFFER: the address in use, and on offer to the client for 60 seconds |
| DhcpAnswers.AfterAck | src/dhcp/server.mts:333-357 | the tables after an ACK: one lease of the client for 900 seconds, its other address free, the address no longer on offer, all else untouched |
| DhcpAnswers.Collected | src/dhcp/server.mts:504-534 | address by address what a collection leaves |
| DhcpServer.DHCPServer.AllocateIP | src/dhcp/server.mts:403-429 | reservation, else own lease, else random |
| DhcpServer.DHCPServer.FindLeaseByMAC | src/dhcp/server.mts:434-439 | the loop finds the client's lease exactly when there is one |
| DhcpServer.DHCPServer.GcLeases | src/dhcp/server.mts:504-534 | the two loops that delete while they iterate leave exactly the live entries, and free exactly the addresses of the dead ones that no lease claims |
| DhcpTables.HandleKeeps | src/dhcp/server.mts:210-241 | every message keeps: lease keys are lease addresses, one lease per client, leased addresses are in use, and nothing in use is unaccounted for |
| DhcpTables.ReserveKeeps | src/dhcp/server.mts:569-574 | a reservation leaks an address if and only if it replaces the client's former one, that address is in use and nothing else accounts for it |
| DhcpRuns.Reachable | src/dhcp/server.mts:210-241 | the invariant holds after every run of messages, timers and reservations; with one reservation per client allocatedIPs is covered by leases, offers and reservations |
| DhcpRuns.GcAbsorbs | src/dhcp/server.mts:504-534 | a collection at t1 <= t2 makes no difference to the one at t2, for any tables |
| DhcpRuns.TimerIsInvisibleIff | src/dhcp/server.mts:493-499 | a whole run from any tables, reservations included, and the same run without its timer are alike at every moment - the same replies, the same tables after the next collection - if and only if every reservation finds its address with an expired, uncollected entry in both or in neither |
| DhcpRuns.TimerIsInvisible | src/dhcp/server.mts:493-499 | so they are in every run without reservations |
| DhcpRuns.ReserveCommutesIff | src/dhcp/server.mts:564-574 | a reservation and a collection may change places if and only if the address has no expired entry that is still to be collected |
| DhcpRuns.BackedAfterGc | src/dhcp/server.mts:504-534 | just after a collection every address in use is reserved or backed by a lease or an offer that is still running |
| DhcpRuns.Reclaimed | src/dhcp/server.mts:504-534 | after any run, 900 seconds without a message and one collection leave no lease, no offer and only reserved addresses in use |
| DhcpExclusive.ExclusiveIff | src/dhcp/server.mts:299-354 | over all runs with a clock that does not go back: a never reserved address is ACKed to a second client only after the first one's lease time or after the first was ACKed another address, if and only if the configured lease time is at most 900 s |
| DhcpExclusive.HolderKeeps | src/dhcp/server.mts:299-354 | a message of another client is answered with a leased address if and only if that address is reserved for this client and the server is to choose; anything but an ACK of it leaves the lease as it is, and the holder keeps it until it is given another |
| DhcpOffers.AckIsOffer | src/dhcp/server.mts:328-334 | a REQUEST for the offered address is ACKed with it if and only if the client has it by reservation (and need not be refused), leased it already when it was offered, or asks after the offer has expired |
| DhcpOffers.OfferBlocks | src/dhcp/server.mts:246-255 | in every run, an address offered to a newcomer is given to nobody, that client included, until the offer has expired |
| DhcpOffers.OfferPends | src/dhcp/server.mts:246-255 | a DISCOVER by a client without lease and reservation brings that about for 60 seconds |
| DhcpOffers.Renews | src/dhcp/server.mts:328-354 | a client that asks for its leased address gets it for another 900 seconds, and nothing else changes |
| DhcpOffers.StrangerGetsIff | src/dhcp/server.mts:328-354 | a client with no claim to an address can get it from a state if and only if it lies in the subnet and is not in use, be it the server's, the network's or the broadcast address |
| DhcpOffers.ReservedGivenAway | src/dhcp/server.mts:564-574 | a reserved address goes to another client once an offer of it to its owner has expired, for every subnet and address |
| DhcpStrays.HandleKeepsOffersIff | src/dhcp/server.mts:210-241 | a message keeps all offered addresses in use if and only if the collection before it orphans no live offer but of the address that the server finds or chooses for the client, and the client does not leave an offered address for it |
| DhcpStrays.RunKeepsOffersIff | src/dhcp/server.mts:210-241 | offered addresses are in use at every moment of a run, with its messages, collections and reservations, if and only if each event keeps them so |
| DhcpStrays.GcKeepsOffersIff | src/dhcp/server.mts:504-534 | a collection does so if and only if no lease has expired under a live offer |
| DhcpStrays.GrantKeepsOffersIff | src/dhcp/server.mts:345-352 | a grant does so if and only if the client had no other, offered, address leased |
| DhcpStrays.OfferOutlives | src/dhcp/server.mts:345-352 | a run in which a client moves and leaves a live offer of a free address |
| DhcpStrays.OfferOutlivesLease | src/dhcp/server.mts:521-526 | a run in which a lease expires under a live offer and the collection frees the offered address |
| Encoding.ParseOptions | src/dhcp/protocol.mts:78-107 | the loop returns the last-wins map of the items the buffer holds |
| Encoding.ReadsOneWay | src/dhcp/protocol.mts:78-107 | for every buffer those items are the only ones by the TLV grammar of section 2 of RFC 1533: well-formed options and pads in front of End, of a cut-off option or of the end of the buffer |
| Encoding.CollectLast | src/dhcp/protocol.mts:101-103 | of several options with one code the last one counts |
| Encoding.EncodeOptions | src/shared/encoding.mts:39-58 | the loop writes code, length modulo 256 and data of every option, a bare octet for a pad, and End |
| Encoding.WriteIPv4 | src/shared/encoding.mts:15-21 | four octets are written at the offset and nothing else changes |
| Encoding.WriteMAC | src/shared/encoding.mts:26-31 | six octets are written at the offset and nothing else changes |
| Encoding.IPv4RoundTrip | src/shared/encoding.mts:15-21 | an address reads back as written if and only if it is four decimal numbers below 256 in their usual notation |
| Encoding.MacRoundTrip | src/shared/encoding.mts:26-31 | a MAC address reads back as written if and only if it is six pairs of lower-case hexadecimal digits |
| Numerals.AddressOctets | src/shared/encoding.mts:15-21 | the octets of any text: the low eight bits of the number each of its first four parts spells, 0 for one that is missing or not all digits |
| Numerals.MacOctets | src/shared/encoding.mts:26-31 | the same for MAC addresses, by the hexadecimal digits at the front of each part |
| DhcpCodec.EncodeDHCPReply | src/dhcp/protocol.mts:245-307 | the buffers, filled field by field, are the reply; an exception exactly when a number is too large for its field |
| DhcpCodec.EncodeDHCPNAK | src/dhcp/protocol.mts:319-350 | the same for a NAK, with the broadcast flag and no address |
| DhcpCodec.ParseDHCPPacket | src/dhcp/protocol.mts:120-227 | every field of the packet, client UUID, architecture and host name included, or the error that is thrown |
| DhcpRequests.RefusedIff | src/dhcp/protocol.mts:120-147 | a buffer is refused exactly when it is shorter than 240 octets or lacks the cookie |
| DhcpRequests.HeadIs | src/dhcp/protocol.mts:125-140 | each field of the fixed part from its octets |
| DhcpRequests.PxeIff | src/dhcp/protocol.mts:160-166 | a packet is a PXE client's if and only if its last option 60 begins with PXEClient (the top bits of the octets aside) |
| DhcpRequests.NumbersAre | src/dhcp/protocol.mts:155-216 | type, requested address, server identity and architecture from the last options 53, 50, 54 and 93 |
| DhcpRequests.UuidIs | src/dhcp/protocol.mts:173-180 | the client's identity from the last option 61, without one from the last option 97, in 8-4-4-4-12 digits |
| DhcpRequests.HostnameIs | src/dhcp/protocol.mts:189-194 | the host name from the last option 12, without the blanks at both ends |
| DhcpRequests.EncodedIsRead | src/shared/encoding.mts:39-58 | any option list of the encoder, bare pads among its options, reads back as it was given |
| DhcpCodec.FileRoundTrip | src/dhcp/protocol.mts:273-275 | a boot file's name survives if and only if it has at most 128 characters, all seven-bit, and does not end in NUL |
| DhcpCodec.ReplyOptionsRoundTrip | src/dhcp/protocol.mts:280-305 | all options of a reply come back, and no others, if and only if there are at most 63 DNS servers |
| DhcpCodec.ReplyRoundTrip | src/dhcp/protocol.mts:245-307 | what is read back from an OFFER or ACK, field by field, each with the exact condition under which it is what was written |
| DhcpCodec.NakRoundTrip | src/dhcp/protocol.mts:319-350 | what is read back from a NAK |
| DhcpWire.AnswerIsRead | src/dhcp/server.mts:210-241 | from request octets to reply octets: the answer parses, carries the request's transaction and MAC address, and gives the client the very address that the tables hold for that MAC, and the lease time configured |
| DhcpWire.AnsweredIff | src/dhcp/server.mts:210-304 | a packet is answered, from its octets and the last options 53, 60 and 54, exactly when it is a DISCOVER, or a REQUEST that does not name another server, from a client that is served, and there is an address to give |
| DhcpWire.NoPacketNoAnswer | src/dhcp/server.mts:210-221 | a buffer that is no packet is not answered and changes nothing |
| DhcpWire.ReplySays | src/dhcp/protocol.mts:280-305 | by code, all options of an OFFER or ACK as a client reads them, the DNS servers one by one |
| Checksum.ComputeChecksum | src/dhcp/protocol.mts:363-376 | the loop that carries around after every word gives 65535 minus the folded sum of all words, for every length |
| Checksum.StoredVerifies | src/dhcp/protocol.mts:413-417 | stored in the zeroed field it was computed without, the checksum makes the recomputed one 0 (section 3.1 of RFC 791) |
| Checksum.ChangeIsDetected | src/dhcp/protocol.mts:363-376 | a header that verifies still does with one word replaced if and only if the word is the same, or the other of the two zeros, and not all words are 0 |
| Checksum.EncodeRawDHCPFrame | src/dhcp/protocol.mts:386-426 | the frame, or the exception exactly when a length does not fit its field |
| Checksum.FrameVerifies | src/dhcp/protocol.mts:386-426 | taken apart by a receiver the frame's header verifies, both lengths are right, and addresses and payload are those given; all constants of the three headers are in place |
| Network.DottedRoundTrip | src/shared/network.mts:48-58 | dotted notation and 32-bit integers are inverse to each other |
| Numerals.AddressInt | src/shared/network.mts:48-58 | the integer of any text whose parts are octets is their sum with weights |
| Network.SubnetIsInterval | src/shared/network.mts:72-85 | with a contiguous mask an address is in the subnet if and only if it lies between network and broadcast address as computed, 2^(32-prefix) addresses in all |
| Network.GenerateRandomIP | src/shared/network.mts:245-272 | the first of at most 1000 candidates that is usable, or none |
| Network.RandomIsInside | src/shared/network.mts:245-272 | whatever the random source, the result is not in use, not the server's, passes the subnet test and lies strictly between network and broadcast address |
| RandomAddresses.RandomIPIs | src/shared/network.mts:245-272 | with a contiguous mask the result is the first of 1000 candidates that is not the server's, the first or last address of the subnet or in use, and there is none if and only if all 1000 are |
| RandomAddresses.DrawnIff | src/shared/network.mts:245-272 | an address is the result for some random source if and only if it lies strictly between network and broadcast address, is not the server's and not in use |
| RandomAddresses.NewcomerIsOffered | src/dhcp/server.mts:403-429 | a newcomer's DISCOVER is answered with an OFFER if and only if one of 1000 candidates is usable, and exactly those addresses are offered, each for some random source |

## Left out

- Sockets, files, timers, events, logs, hooks and signals: packets are values, a file is a sequence of octets, a read is short only at the end of the file, time and randomness are parameters, and every handler is one atomic step although the original awaits inside some of them.
- Several transfers at once in the theorems about both ends: what a peer sees of the server does not depend on the others as long as there is room (`ServerPeers.IsolationIff`), and the runs with a client are about one transfer. Two peers that write the same file are not modelled: what the file system says is a parameter of each request.
- A repeated RRQ or WRQ is ignored while its transfer is registered, as modelled. Before that, or after the transfer has ended, it starts another one; the run theorems are about a single one, and only the further OACK that it brings is covered (`DownloadRepeats.RepeatedOackSafeIff`).
- Recovery from loss: the server never retransmits (`src/tftp/server.mts:807-809`), so nothing is claimed about progress when packets are lost.
- TftpService.TFTPServer.HandleTransferDATA: the branch in which the file cannot be written ("Write error") is not modelled; likewise the read error of the sending loop and failing file operations of the client. File operations after the opening succeed.
- UploadLimit.UploadPrefixSafeIff: without an OACK it is stated for a client whose block and window size are those of the server, and so are the other theorems about uploads on the lossy network; other sizes are treated on the FIFO (`UploadMismatch`).
- Octets: whole runs on octets are stated for downloads on the lossy network; that either end reads the other's packets is in `Octets.Reads` for uploads too.
- Netascii conversion (the original has none), `isPathInRoot` (its result is a parameter), `shouldSendMoreInWindow` (unused), `ping` and the REPL.
- `parseInt` and `Number` are exact here; the original's are exact below 2^53. `Number` of a part that is not all digits (a sign, blanks, exponents, hexadecimal) is taken for 0, and `parseInt(x, 16)` is modelled for text that begins with its digits.
- Options a client asks for are natural numbers; what the server does with any other text is in `Options.ValidateOptions`.
- Numbers that do not fit their field make the encoders throw: `Option.None` here; the texts of the exceptions are not modelled, but for the one that reaches the peer in an ERROR.
- The boot file chosen for a client, the reservations' boot files and the UUID kept with a lease: they change no table.
- Entropy that runs out: 1000 unusable candidates make the original throw; the reply is then `Failed` and nothing is sent.
- The reference to the option's data in the parsed map: the map is by value.
- The BOOTP server, PXE orchestration, HTTP, dashboard, configuration, health checks, mDNS and netconsole: not modelled.
- `isValidIPv4`, `isValidMAC` and the functions about network interfaces: one expression each, or I/O.
