# A verified model of libhislip

libhislip is a pre-alpha client and server library for HiSLIP (IVI-6.1, version 1.1). This project models
the protocol code of `src/client.c`, `src/message.c`, `src/message.h`, `src/server.c` and `src/session.c` in
Dafny 4.11 and proves what that code does, or what it would do with the repairs its own comments announce.
`dafny verify dfyconfig.toml` checks everything.

## What is modelled

* **Bytes and frames** (`ByteOrder`, `Message`, `Framing`, `Transport`). The header struct as a little-endian
  host stores it, the byte-order macros, `msg_create`, `msg_send` and `msg_receive`. The transport is a byte
  sequence and a *plan*: every `tcp_read` and `tcp_write` may fail, or move any number of bytes up to what was
  asked for, as the plan says. Theorems hold for every plan, or say which plans they need. A plan is a finite
  list; calls behind its end move all they can.
* **Data transfer** (`Segmentation`, `Client`, `SendAsWritten`, `SendRuns`). `hs_sync_send`,
  `hs_sync_receive`, `hs_set_maximum_message_size`, message ids and size limits over whole sessions.
* **Sessions** (`Sessions`, `SessionLog`, `SessionThreads`). The table of 256 slots and its 16-bit counter, as a
  sequential object and as a machine in which any number of threads interleave at every step of
  `session_new` and `session_free`, with the SessionIDs that `hs_connect` assigns outside the mutex.
* **Connecting** (`Connect`, `Lifetime`, `Handshake`, `Establish`). `hs_connect` with its cleanup ladder and
  `hs_disconnect`; what becomes of the sockets over a whole session with any calls in between; the two-channel
  exchange of any number of clients with one server under every interleaving; and the two sides coupled byte
  for byte.
* **The server** (`Server`, `Registry`). The frame loop of `hs_process` as written with its payload pointer, and
  the subaddress list. Where the loop follows a pointer that nothing has set (`strcmp` with a NULL subaddress, or
  `server->subaddress_data` before any registration), which is undefined in C, the model ends the process.

## As written and repaired

The source is unfinished. Where a promised property fails, the code is kept as it is in one model, and a
theorem gives the exact condition under which it meets the property; the repaired form is a second model.

| place | as written | repaired |
|---|---|---|
| src/client.c:214, 218, 232, 237, 242-246 | `SendAsWritten` | `Client.SyncSend`: a limit without room for payload returns -1, the total is a sum, each frame carries its own slice, a failed send returns -1 |
| src/client.c:273, 282 | `Client.SyncReceiveAsWritten` | `Client.SyncReceive`: every payload goes to the FIFO until a DataEnd arrives |
| src/message.c:166, 236 | `ReceiveAsWritten` | `Framing.MsgReceive`: the destination advances, a failed read returns -1 |
| src/tcp.c:127 | `Framing.MsgSend` (one write) | `Framing.MsgSendAll` (until everything is written); only `SyncSend` uses it |
| src/client.c:170-183 | `Connect.HsConnect` | `Connect.HsConnectRepaired`: each socket opened is closed once |
| src/message.c:171, 240 and src/client.c:188-196 | `Lifetime.WholeSession` with `resets` false | with `resets` true: a call that finds its socket closed by `msg_receive` resets the stored descriptor |
| src/server.c:63, 199 | `Registry.HsServer.SubaddressLink` | `Registry.HsServer.Find` hands the match to its caller |
| src/server.c:96-158, 198-199, 251 | `Server.HsProcess`, `Registry.HsServer.SyncHandler` | not repaired; `Server.Intend` is what the switch is for |

`hs_connect`, `hs_sync_receive` and `hs_set_maximum_message_size` are built on the repaired `msg_receive`; its
relation to the loops as written is `ReceiveAsWritten.ReceiveExact`. The loop of `hs_sync_send` as written
need not end (its byte count can wrap past zero), so it is a function from a number of passes to a state
instead of a method. A method whose source body repeats or nests is split into a few methods along its
comments.

Where code and comments disagree the model follows the code: the repository's README shows a command answered
by the server's handler, but `hs_process` calls the handler for Data only, and a command that fits one frame is
a DataEnd (`Server.HandlerMissesDataEnd`); a NULL subaddress "opens the default device" (src/client.c:81), but
makes a server with a registered subaddress crash (`Handshake.CrashExact`); `hs_process` checks the subaddress
link for -1, which the link never returns; and `hs_server_init` asks for a size limit larger than 16 but accepts 16.

## Model

| member | source | states |
|---|---|---|
| ByteOrder.HtonllIsByteReversal | src/message.h:42 | storing htonll(x) on a little-endian host puts the eight bytes of any 64-bit value on the wire most significant first, the full reversal of its own image |
| ByteOrder.HtonllInvolution | src/message.h:42-43 | ntohll undoes htonll and the other way round, for every 64-bit value |
| ByteOrder.BigEndianDigit | src/message.c:135-138 | byte k of a multi-byte field on the wire is its k-th base-256 digit from the top |
| Message.PackedStructIsNetworkOrder | src/message.c:127-138 | the swapped header struct has the packed big-endian layout of the standard in memory |
| Message.UnpackedStructIsNetworkOrder | src/message.c:175-178 | reading any 16 bytes as the struct and swapping back yields their big-endian field values |
| Message.DecodeEncodeHeader | src/message.h:73-80 | decoding an encoded header gives back all field values |
| Message.EncodeDecodeHeader | src/message.c:175-178 | encoding a decoded header gives back the 16 bytes, for all 16-byte strings |
| Message.DecodeEncode | src/message.c:187-214 | a frame with any bytes behind it decodes to itself and leaves those bytes if and only if it is no Error or FatalError and fits the receiver's limit; else it is refused with only the header consumed |
| Message.DecodeBytes | src/message.c:175-214 | for every byte string, in terms of its own bytes: a header is refused if and only if it does not begin with 'H' 'S', has type 2 or 3, or announces more than the limit; the stream is cut if and only if header or payload is incomplete; otherwise each field and the payload come from their places |
| Message.DecodeIsSound | src/message.c:155-248 | whatever decodes was the encoding of an acceptable message followed by the leftover |
| Message.PrefixFree | src/message.c:108-148 | no stream starts with two different frames |
| Message.UniqueFraming | src/message.c:108-248 | the concatenation of frames decodes to exactly those frames if and only if the receiver accepts each |
| Message.EncodeAllInjective | src/message.c:108-148 | two lists of frames with the same bytes are equal |
| Transport.Socket.Read | src/tcp.c:137-173 | result contract of tcp_read and what it leaves in the destination and on the stream |
| Transport.Socket.Write | src/tcp.c:99-135 | result contract of tcp_write |
| Framing.MsgCreate | src/message.c:108-148 | the buffer built field by field is the encoding of the message |
| Framing.MsgSend | src/message.c:250-264 | one write of exactly the frame, with the length taken from the frame itself |
| Framing.PushAllAppends | src/tcp.c:127 | writing until done appends the bytes in order, all of them unless a write fails |
| Framing.PushAllExactly | src/tcp.c:127 | bytes stay behind if and only if a write that was made failed, and that write was the last one made |
| Framing.MsgSendAll | src/message.c:250-264 | repaired: returns the frame's length when all of it was written, else -1 |
| Framing.FetchInOrder | src/message.c:161-173 | repaired read loop: the bytes come out in stream order whatever the read sizes |
| Framing.Fill | src/message.c:231-244 | repaired read loop over a buffer computes that, and reports end of stream and errors |
| Framing.MsgReceive | src/message.c:155-248 | repaired: message, end of stream or refusal, each with the exact leftover stream; the socket is closed, once, if and only if no read failed and the stream ends within header or payload, and then nothing is left on it; after a failed read it stays open |
| Framing.ChunkingInvariance | src/message.c:155-248 | for every split of the stream into reads, result and leftover are those of decoding the whole stream at once |
| Framing.ReceiveExactly | src/message.c:155-248 | the same for every plan: if no read that was made failed, result and leftover are those of decoding the stream at once; if one did, it was the last one made and the call is refused; the socket is closed only with nothing left on the stream |
| Framing.DeliveryIsSound | src/message.c:155-248 | with failing reads anywhere, a delivered message is still the decoded one |
| ReceiveAsWritten.FillLoop | src/message.c:161-173 | the read loop as written computes FillInPlace |
| ReceiveAsWritten.Consumes | src/message.c:161-173 | the loop as written takes from the stream what it was asked for, plus exactly one byte for each failed read it met |
| ReceiveAsWritten.FillExact | src/message.c:161-173 | the loop as written fills its buffer right for every prior content if and only if its first read is complete |
| ReceiveAsWritten.StopsAtEnd | src/message.c:166-171 | the loop as written stops for the end of the stream only with nothing left on it, having been asked for more than there was, counting failed reads |
| ReceiveAsWritten.ClosesAtEnd | src/message.c:169-172 | so msg_receive as written closes the socket only at the end of the stream, and never for a failed read |
| ReceiveAsWritten.RefusesInPlace | src/message.c:187-214 | as written, a FatalError, an Error or a payload over the limit is refused with the payload left on the stream |
| ReceiveAsWritten.ReceiveExact | src/message.c:155-248 | msg_receive as written returns the frame in front, whatever its buffers held, if and only if the header read and the payload read are both complete |
| Segmentation.WireTotalMeaning | src/client.c:213-219 | repaired total: payload length plus 16 bytes per started block of max-16 |
| Segmentation.WireTotalStep | src/client.c:221-248 | the test remaining > max tells exactly whether more than one frame is left, and a full frame comes off the total |
| Segmentation.WireTotalFits | src/client.c:213-219 | the total fits 64 bits |
| Segmentation.WireTotalCountsFrames | src/client.c:213-219 | the closed formula equals the count frame by frame |
| Segmentation.FragmentsSize | src/client.c:213-249 | the frames take exactly the computed bytes, and there are ceil(length/(max-16)) of them |
| Segmentation.FragmentAt | src/client.c:221-239 | frame i carries slice i of the payload, the message id advanced by 2i, and is DataEnd if and only if it is the last |
| Segmentation.Delivery | src/client.c:262-282 | the frames of any non-empty payload, read in arbitrary pieces, are assembled to that payload and the stream is left behind them |
| Segmentation.DeliveryNeedsRoom | src/client.c:267-270 | a receiver that cannot take the first frame gets an error |
| Segmentation.ReceiveAsWrittenExact | src/client.c:262-307 | as written, the receiver returns a fragmented payload if and only if it fits one frame |
| Segmentation.LastFragmentOnly | src/client.c:262-307 | as written, it returns the last fragment |
| Client.ByteTotal | src/client.c:213-219 | the repaired computation yields the number of bytes of all frames |
| Client.SendFrame | src/client.c:223-248 | one frame with the session's message id, which advances by 2 modulo 2^32 |
| Client.SyncSend | src/client.c:204-252 | repaired: transmits exactly the fragments of the payload, returns its length or -1, and changes only this session's message id, by 2 per frame begun; under a limit of 16 or less it returns -1 and changes nothing |
| Client.TransmitMeaning | src/client.c:221-249 | what is accepted is the front of the encoded frames, all of it unless a write fails |
| Client.TransmitGains | src/client.c:221-249 | an interrupted transmission ends within the last frame begun: all frames before it are on the stream completely, none behind it at all |
| Client.TransmitExactly | src/client.c:241-246 | a transmission is complete if and only if no write that was made failed; otherwise the failing one was the last one made |
| Client.SyncReceive | src/client.c:254-308 | repaired: what the receive loop assembles is handed over, with the exact leftover stream; the socket is closed once if the stream ended |
| Client.SyncReceiveAsWritten | src/client.c:254-308 | as written: the same with only the payload of the DataEnd frame |
| Client.ReceiveMeaning | src/client.c:262-307 | on a stream that starts with acceptable frames up to a DataEnd, over any reads: if one of the reads fails the result is -1 and nothing is handed over; otherwise the stream is left at what follows, and the result is 0 with nothing handed over if the payloads together exceed the buffer, else their sum with their concatenation |
| Client.ReceiveMeaningAsWritten | src/client.c:262-307 | as written, -1 if and only if one of the reads fails; otherwise the payload of the DataEnd and its length, with the stream left at what follows |
| Client.ReceiveFails | src/client.c:267-270 | for both: acceptable frames without a DataEnd, followed by the end of the stream, a partial frame or a refused header, give -1 and nothing, over any reads |
| Client.EndToEnd | src/client.c:204-308 | a payload sent completely is handed over unchanged, over every split of the stream, if and only if it fits the receiver's buffer, and the stream is left at the next message |
| Client.SetMaximumMessageSize | src/client.c:323-372 | on the wire, in the bytes themselves: 24 bytes that decode, whatever follows, to message 15 with control 0, parameter 0 and the size in network order, digit by digit; all three results, which size field changes when, the stream left, and that the socket is closed once if the reply meets the end of its stream |
| Client.NegotiatedSize | src/client.c:359-371 | the limit a server encodes in network order is the limit the client adopts |
| Client.NegotiationSucceeds | src/client.c:344-371 | over reads that do not fail, a message 16 with a size in network order is taken as that limit, whatever its other fields and whatever follows it |
| Client.ReplyDigit | src/client.c:359-362 | byte for byte, the limit taken from a reply of any length up to 8: a short one is filled up with what lies behind it |
| SendAsWritten.SendExact | src/client.c:204-252 | as written, some number of passes ends having sent exactly the fragments if and only if the payload is empty, or fits one frame and the write is complete |
| SendAsWritten.LimitExact | src/client.c:204-252 | as written, every frame of every number of passes respects the limit if and only if the payload is empty or length + 16 <= max, for every limit but 16 |
| SendAsWritten.BeginLarge | src/client.c:214-239 | as written, a payload for more than one frame is counted as its last, partial frame alone, so the first frame, which carries all of it, is already a DataEnd; if it fills whole frames exactly, it is counted as those frames and the first is typed Data |
| SendAsWritten.CountsDown | src/client.c:221-245 | after any number of passes the count is what it was, less the bytes accepted since, plus one for each write that failed, modulo 2^64; the loop ends when it is 0 |
| SendAsWritten.OversizedFrame | src/client.c:213-239 | with the default limit of 256, a payload of 241 bytes goes out as one frame of 257 |
| SendAsWritten.MessageIdsAsWritten | src/client.c:225-228 | as written, after any number of passes, frame i of a call carries the message id advanced by 2i modulo 2^32 and the counter stands behind the last frame |
| SendAsWritten.EndToEndAsWritten | src/client.c:204-308 | hs_sync_send, hs_sync_receive and their read loops all as written: with 0 < length <= max-16, a full write and full reads, the payload and its length are handed to the caller, whatever the receiver's buffers held, and the stream is left behind it |
| SendRuns.SizeLimit | src/client.c:204-371 | over any mix of sends and negotiations, whatever the replies, every frame was posted by one of the sends and is no larger, header included, than the size negotiated last before it, or than 256 bytes if there was no negotiation before it |
| SendRuns.MessageIdLaw | src/client.c:225-228 | the n-th data message of a session, over all its sends, carries (0xFFFFFF00 + 2n) mod 2^32 |
| SendRuns.MessageIdsDistinct | src/client.c:225-228 | message ids are even, and two messages share one if and only if they are a multiple of 2^31 apart |
| SendRuns.SyncSendIsStep | src/client.c:204-252 | a call of the modelled hs_sync_send is a step of such a run in counter and limit, and the stream gains the bytes of the frames the step posts: all of them, or after a failed write a prefix that ends within the last one |
| SendRuns.SendInRun | src/client.c:204-252 | the call itself, on the session's slot and socket, under any negotiated limit |
| SendRuns.NegotiateInRun | src/client.c:323-372 | a call of hs_set_maximum_message_size is a negotiation step of such a run, or none if it fails |
| SendRuns.SessionDelivery | src/client.c:204-308 | over any mix of completed sends and negotiations, with the stream read in arbitrary pieces, successive receives return exactly the non-empty payloads sent, in order, and leave the stream behind them |
| SendRuns.CounterLaw | src/session.c:62 | the session's counter after n data messages |
| Sessions.LowestFree | src/session.c:48-69 | the position it returns is free and everything below it is taken |
| Sessions.SessionTable.constructor | src/session.c:37-39 | an empty table and counter 0 |
| Sessions.SessionTable.SessionNew | src/session.c:41-82 | the scanning loop claims the lowest free slot with a fresh record (message id 0xFFFFFF00, both sizes 256, no sockets, the counter's value) and advances the counter modulo 65536, or returns -1 and changes nothing exactly when all 256 are taken |
| Sessions.SessionTable.SessionFree | src/session.c:84-110 | frees a taken slot, and refuses a bad handle or a free slot without change |
| SessionLog.StaysTaken | src/session.c:41-110 | a granted slot stays taken until released |
| SessionLog.NoDoubleGrant | src/session.c:41-110 | between two grants of a handle lies a release of it |
| SessionLog.Conservation | src/session.c:41-110 | taken slots = successful session_new calls - successful session_free calls, within 0..256 |
| SessionLog.SessionIdOf | src/session.c:55 | over any history of session_new, session_free and assigned SessionIDs (src/client.c:118), a live session's SessionID is the one assigned last since its slot was handed out, or else its allocation ordinal modulo 65536 |
| SessionLog.SharedSessionId | src/session.c:37-55 | two live sessions without an assigned SessionID (a server's) share one if and only if their ordinals, which differ, are congruent modulo 65536 |
| SessionLog.SharedStoredId | src/client.c:118 | two live sessions with one (a client's) share it if and only if the servers gave out the same |
| SessionLog.ConnectedIdsCollide | src/client.c:118 | two connects to servers that both gave out slot 0: the same SessionID at ordinals 0 and 1 |
| SessionLog.SessionIdsCanCollide | src/session.c:37-55 | a history in which two live sessions do share one |
| SessionThreads.DecidingStepIsAtomic | src/session.c:46-71 | the one step of a call that enters history is a step of the atomic allocator with the same result |
| SessionThreads.ReachableInv | src/session.c:41-110 | mutex, table and per-thread invariant in every reachable state |
| SessionThreads.Linearizable | src/session.c:41-110 | safety, for every interleaving of any number of threads: the calls, and the unguarded assignments of SessionIDs, took effect one at a time, each between its call and its return, with the atomic table's results |
| SessionThreads.FinishedIsRecorded | src/session.c:41-110 | every call that has returned stands in that history |
| SessionThreads.RealTimeOrder | src/session.c:41-110 | real-time order: a call that had returned at some time stands in the history, then and for ever after, before every call that had not begun by then |
| SessionThreads.MutualExclusion | src/session.c:46-71 | never two threads between lock and unlock |
| SessionThreads.ConservationOverRuns | src/session.c:41-110 | the conservation law in every reachable state |
| SessionThreads.SoloNew | src/session.c:41-82 | left alone with the mutex free, session_new returns within 260 steps, with the lowest free slot or -1 |
| SessionThreads.SoloFree | src/session.c:84-110 | left alone with the mutex free, session_free returns after 3 or 4 steps, 0 with the slot free or -1 with the table unchanged, and the mutex is free again |
| SessionThreads.HolderFrees | src/session.c:41-110 | in every reachable state with the mutex taken, its holder, in either function and left alone, returns within 260 steps and the mutex is free |
| SessionThreads.NoDeadlock | src/session.c:41-110 | from every reachable state every thread in a call can be brought to its return by at most 520 steps of the mutex holder and of itself |
| SessionThreads.AnyCallCompletes | src/session.c:41-110 | in every reachable state a thread that is in no call can make either one and be brought to the return of that call |
| Handshake.ReachableInv | src/client.c:75-168 | invariant of the exchange between all clients and server threads |
| Handshake.ConnectedIsAuthentic | src/client.c:75-168 | a connected client's SessionID is the slot allocated for its own Initialize, the only one ever allocated for it, and every AsyncInitialize seen on its second channel carried that id |
| Handshake.SessionIdsAreExclusive | src/server.c:187-213 | over a server's whole life a SessionID belongs to one client: whoever holds it at one time and whoever holds it then or later are the same, also if the first has given up in between |
| Handshake.AnnouncementsAreAuthentic | src/server.c:225-242 | every AsyncInitialize the server sees names the slot granted to that connection |
| Handshake.ServerCapacity | src/server.c:187-194 | over a server's whole life at most 256 connections are given a slot, those abandoned since included, and no other client ever holds a SessionID |
| Handshake.FullForever | src/server.c:187-194 | once 256 slots have been given out, a client without one never gets a SessionID in any continuation |
| Handshake.CanStillConnect | src/client.c:75-168 | from every reachable state with the server up, the mutex free and a slot left, a client that has not started, with both its server threads listening and a name the server can serve, can connect by moves of its own connection alone |
| Handshake.UnservableNeverConnects | src/server.c:133-204 | a client whose name is longer than message_size_max - 16, or empty with something registered, never gets a SessionID under any schedule |
| Handshake.ConnectableExact | src/client.c:75-168 | from every such state some schedule connects the client if and only if its name is within the limit and not empty where something is registered |
| Handshake.CrashExact | src/server.c:198-199 | some schedule crashes the server if and only if a subaddress is registered and some client names none |
| Handshake.CrashStopsAll | src/server.c:198-199 | after a crash no client without a slot ever gets a SessionID |
| Establish.ConnectSucceedsExactly | src/client.c:75-168 | client frames through the server's byte loop and back, when writes take their frames in full and reads are complete: hs_connect succeeds if and only if both tables have a free slot, the subaddress is within the server's limit, and one is named or nothing is registered; it stores the slot the server took. A server that is full or crashes ends the stream, the latter having taken a slot; one that ignores an overlong name leaves the client to its timeout and its own table unchanged |
| Establish.ConnectOverPlainLines | src/client.c:75-168 | in particular, over lines on which every read and write is complete, for all tables, limits, registries and names |
| Establish.DefaultDeviceCrashes | src/server.c:198-199 | the default client, with a NULL subaddress, against a fresh server with one registered name: a crash, no answer, a slot gone |
| Establish.InterleavedServerIsLoop | src/server.c:83-242 | the threads of the interleaved exchange do with a frame what one pass of the byte loop does: size check, payload pointer, version check, session_new, reply, end and crash |
| Establish.InterleavedClientConnects | src/client.c:75-157 | its clients send the two requests of hs_connect and step on a reply, on either channel, as the byte-level client does |
| Establish.SentPayloadAtHandler | src/server.c:245-262 | of the bytes that the repaired hs_sync_send writes, hs_process gives the handler everything but the last fragment |
| Connect.RunLeg | src/client.c:83-113 | one request and reply: what goes out, the outcome, and whether the socket was closed on the way |
| Connect.FirstLeg | src/client.c:63-119 | the synchronous channel: what is sent, the outcome, the socket, and the slot's socket and SessionID |
| Connect.SecondLeg | src/client.c:122-157 | the asynchronous channel, with the SessionID just stored |
| Connect.Attempt | src/client.c:55-168 | the main line of hs_connect: which goto is reached, what was sent, what the session slot holds |
| Connect.ExchangeMeaning | src/client.c:83-113 | a leg is answered if and only if the request was accepted and the first message of the reply stream, however split, has the expected type |
| Connect.LegExactly | src/client.c:83-113 | for every transport: a leg fails at the write if and only if that fails, is refused if a read fails, and else is decided by the bytes of the reply stream: end of stream, refusal with a limit of 1000000, right or wrong type |
| Connect.InitializeOnWire | src/client.c:75-88 | the first request byte for byte: 'H' 'S', type 0, control 0, version 1.0, vendor 42, the length of the subaddress, the subaddress |
| Connect.AsyncInitializeOnWire | src/client.c:131-133 | the second: 'H' 'S', type 17, control 0, the SessionID in network order, no payload |
| Connect.DoneExactly | src/client.c:55-168 | hs_connect succeeds with an id if and only if a slot is free, both requests go out, and the streams start with an InitializeResponse ending in that id and an AsyncInitializeResponse |
| Connect.LadderExactOnBytes | src/client.c:170-183 | the ladder as written, over the repaired msg_receive and streams that do not fail, in terms of the bytes both peers send: hs_connect closes each socket it opened exactly once on -1 and none on success, unless a slot is free and either the Initialize cannot be sent or its reply is refused or of another type (the synchronous socket leaks), or that leg is answered, the AsyncInitialize goes out and the stream ends within its reply (the asynchronous socket is closed twice); in those cases it never does |
| Connect.LeakingDials | src/client.c:90-113 | peers that make it leak the synchronous socket: a failed write, a FatalError, a reply of another type |
| Connect.DoublyClosingDials | src/client.c:147-174 | a peer that makes it close the asynchronous socket twice |
| Connect.HsConnect | src/client.c:48-184 | the ladder as written, over the repaired msg_receive: result, session table, stored SessionID and sockets, closes per socket, streams left |
| Connect.ConnectIsHistory | src/client.c:55-181 | the session table hs_connect leaves is its history replayed: session_new, the assigned SessionID, and session_free if it fails |
| Connect.ConnectTwice | src/client.c:118 | two calls of hs_connect against servers that gave out slot 0 each: two live devices with the same SessionID |
| Connect.HsConnectRepaired | src/client.c:48-184 | the same, with each socket opened closed exactly once on -1 and not at all on success |
| Connect.HsDisconnect | src/client.c:186-201 | closes each stored socket once and releases the slot, nothing else in the table changing |
| Lifetime.WholeSession | src/client.c:48-372 | hs_connect (repaired), any sends, receives and negotiations, and hs_disconnect: each socket opened is closed exactly once if and only if no receive on it met the end of its stream, and twice otherwise; with the descriptor reset, always once; the same slots are taken as before |
| Lifetime.EndedExactly | src/client.c:254-372 | what that condition means call by call |
| Lifetime.HangingUp | src/client.c:186-201 | peers that answer and hang up make it fail on either socket with the first receive |
| Connect.ReleaseUndoesAllocate | src/client.c:180-183 | session_free after session_new leaves the same slots taken |
| Server.ReceiveTurn | src/server.c:95-158 | what one pass takes from the stream: end, dropped bytes, or a message |
| Server.Dispatch | src/server.c:160-273 | the switch, on the session table, the registry, the socket and the payload pointer, does what React says; what that is, message by message, is EveryMessage |
| Server.ProcessTurn | src/server.c:83-274 | one pass of the loop, with the closing of the socket |
| Server.HsProcess | src/server.c:74-275 | the loop computes Process: dispatched messages, session table, bytes sent and stream left; the socket is closed once unless the thread crashed |
| Server.EveryMessage | src/server.c:160-273 | for every stream, every plan of reads, table and registry: each message the loop dispatches calls the handler if and only if it has type 6 and the last registration has a callback; is replied to if and only if it has type 17 (type 18, parameter 42) or is an Initialize of version 1.0 with a slot free and no unset pointer followed (type 1, parameter 0x01000000 + lowest free slot); ends the run if and only if it is another Initialize; crashes it if and only if an unset pointer is followed; any other type causes nothing; only the last message of a run ends it |
| Server.RunLeaves | src/server.c:160-273 | all that a run leaves in the session table are the slots taken by those Initialize messages, and all that it writes are those replies, in order |
| Server.RunEnds | src/server.c:84-274 | a run ends only with a message that ends it or with its stream used up |
| Server.HandledIsData | src/server.c:245-262 | for any mix of frames, the handler is given the payloads of the messages of type 6, in order, and nothing else |
| Server.ShortHeader | src/server.c:96-107 | the bytes of a header read that comes short are lost, and a whole header is looked for behind them |
| Server.ShortPayload | src/server.c:146-158 | a payload read that fails or comes short is not repeated: the message is dispatched with the part that was read, and the next header is looked for in the rest of the payload |
| Server.NoPayloadComes | src/server.c:152-157 | a message whose peer is gone after the header is not dispatched |
| Server.Resynchronises | src/server.c:122-142 | behind any number of 16-byte blocks with a wrong prologue or a length over the limit, frames are served as if the stream began with them, under exactly the condition of FidelityExact |
| Server.OversizedIsRefusable | src/server.c:133-142 | a frame over the limit is such a block, followed by its payload |
| Server.TurnProgress | src/server.c:96-158 | every pass uses up stream bytes or a plan event, at least 1 byte after a positive read and at least 16 after a full header |
| Server.ProcessWeight | src/server.c:83-274 | dispatched headers and payload bytes plus the leftover never exceed the stream |
| Server.FidelityExact | src/server.c:83-274 | frames are dispatched once each, in order, with their own payloads and intended reactions, at frame boundaries, until one stops the loop, if and only if no header or payload read comes short, no payload read fails, and up to that frame each is within the size limit and none makes the loop follow an unset pointer |
| Server.FidelityWithFullReads | src/server.c:83-274 | with full reads, that holds for exactly the streams of frames within the limit that follow no unset pointer |
| Server.FaultEndsRun | src/server.c:198-253 | a frame that does is the last one: nothing is written for it and what is behind it stays unread |
| Server.OverlongNameIsIgnored | src/server.c:133-142 | a thread that is sent an Initialize with a name over the size limit does nothing, however its reads go: the name's bytes left on the stream never look like a header |
| Server.HandlerMissesDataEnd | src/server.c:245-262 | from the byte stream of a fragmented payload within the server's limit, the handler is given everything but the last fragment, and nothing of a payload that fits one frame |
| Server.SendResponse | src/server.c:351-365 | one DataEnd frame with the request's message id |
| Server.ResponseRoundTrip | src/server.c:351-365 | the client's receiver, as written or repaired, hands a response over if and only if it fits |
| Registry.HsServer.RegisterSubaddress | src/server.c:331-349 | head insertion adds one registration to the history |
| Registry.HsServer.SubaddressLink | src/server.c:52-72 | as written, on the payload pointer: 1 if some registered name stands in memory there, else 0, never -1, and nothing is linked; a NULL pointer is followed if and only if something is registered |
| Registry.HsServer.Find | src/server.c:57-67 | the scan yields the node of the latest registration of the name that stands in memory, none if and only if no registered name does |
| Registry.ScanRefinesMap | src/server.c:57-67 | scanning the newest-first list is lookup in the map of latest registrations |
| Registry.LookupExact | src/server.c:57-67 | a received subaddress has no terminator: its lookup is the map's for every registry if and only if the byte behind the buffer happens to be 0 |
| Registry.HsServer.SyncHandler | src/server.c:251 | as written: a Data message reaches the callbacks registered last, or an unset pointer if there are none |
| Registry.HandlerExact | src/server.c:251 | as written, the registration a Data message reaches is the one the scan finds for the client's subaddress if and only if the name registered last is the one that stands there |

## Left out

- EndToEnd: requires a non-empty payload, because `hs_sync_send` puts nothing on the channel for an empty one.
- SetMaximumMessageSize: a reply payload shorter than 8 bytes makes the code read on behind its buffer; what lies there is a parameter.
- SendExact: requires a limit above 16; at 16 the code divides by zero, and below it no payload fits a frame, so there are no fragments to compare with.
- MsgCreate, MsgReceive: sizes are below 2^31, because lengths pass through `int`; malloc does not fail.
- FillLoop: stops with status 2 where the loop as written would ask tcp_read for more than its buffer holds.
- HsProcess: a payload read that fails or comes short leaves the rest of the payload buffer uninitialised; the model records the bytes that were read and takes what lies behind them as a parameter. Its session table is touched by this one thread; the table that all connection threads share is in `SessionThreads` and `Handshake`.
- WholeSession: a call on a descriptor closed before fails without effect (a send would still count up the message id), and a second close hits nothing else; in fact it may hit a descriptor opened in between.
- HsServer.Valid: names are registered before the server runs, and neither they nor their callbacks change or are NULL.
- CrashExact: what undefined behaviour does in fact is up to the platform; the model ends the process.
- ConnectSucceedsExactly: the connection of a crashed server shows as end of stream; a reset would be a failed read, on which hs_connect fails too.
- HsDisconnect: requires a handle in range, which the code does not check.
- Plans are finite, so a transport that fails for ever is not represented; the loops that would then spin are `msg_receive` as written and `hs_process`.
- Server-side reassembly (src/server.c:247, 260) and a repaired server read loop: the source does not say what the handler would be given.
- The callback itself is user code: the model records that it is called and with what.
- Overlap mode, locks, device clear, triggers, remote/local control and service requests: named in the enumeration only.
- The server's empty answer to AsyncMaximumMessageSize: the client is proved against an arbitrary peer.
- src/tcp.c beyond its result contract, the record shared by connection threads, timeouts, debug output, error texts, the demos, and `hs_sync_send_receive`, which calls the two functions above and ignores its callback.
- Big-endian hosts, on which the macros are the identity.
