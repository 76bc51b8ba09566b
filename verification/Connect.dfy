/** hs_connect and hs_disconnect of src/client.c: the two exchanges, the cleanup ladder, and what becomes
    of every socket and session slot on every path. */
module Connect {
  import opened ByteOrder
  import opened Transport
  import opened Message
  import opened Framing
  import opened Sessions
  import opened SessionLog

  /** What tcp_connect meets: no connection, or a peer that will send `wire` and a path that accepts
      writes by `plan`. */
  datatype Dial = Unreachable | Opens(wire: Wire, plan: seq<WriteEvent>)

  const MAX_PAYLOAD_SIZE := 1_000_000

  /** Line 77 and lines 79-88: version 1.0, vendor 42, and the subaddress if one is given. */
  function InitializeMessage(subaddress: Option<Name>): Message {
    Message(INITIALIZE, 0, HISLIP_VERSION * TWO_16 + HISLIP_VENDOR_ID,
            if subaddress.Some? then subaddress.value else [])
  }

  function AsyncInitializeMessage(id: u16): Frame {
    Message(ASYNC_INITIALIZE, 0, id, [])
  }

  /** One request and its reply on one channel. `Eof` is the case in which msg_receive has closed the
      socket already. */
  datatype Leg = Answered(parameter: u32) | SendFailed | Eof | BadReply | WrongType

  function Exchange(dial: Dial, request: Frame, expected: byte): Leg
    requires dial.Opens?
  {
    if WriteCount(Outbox([], dial.plan), Encode(request)) == -1 then SendFailed
    else match Receive(dial.wire, MAX_PAYLOAD_SIZE)
      case Closed(_) => Eof
      case Refused(_) => BadReply
      case Delivered(m, _) => if m.kind == expected then Answered(m.parameter) else WrongType
  }

  /** Where the main line of hs_connect stops: at one of its gotos, or at the end. */
  datatype Route =
    | NoSession
    | NoSync
    | SyncFailed(leg: Leg)
    | NoAsync(id: u16)
    | AsyncFailed(leg: Leg, id: u16)
    | Done(id: u16)

  /** The asynchronous half, with the SessionID of the synchronous one. */
  function SecondHalf(id: u16, async: Dial): (r: Route)
    ensures r.NoAsync? || r.AsyncFailed? || r.Done?
    ensures r.id == id && (r.NoAsync? <==> async.Unreachable?)
  {
    if async.Unreachable? then NoAsync(id)
    else
      var leg := Exchange(async, AsyncInitializeMessage(id), ASYNC_INITIALIZE_RESPONSE);
      if !leg.Answered? then AsyncFailed(leg, id) else Done(id)
  }

  function RouteOf(t: Table, subaddress: Option<Name>, sync: Dial, async: Dial): Route
    requires ValidTable(t) && FitsInt(InitializeMessage(subaddress))
  {
    if Allocate(t).result < 0 then NoSession
    else if sync.Unreachable? then NoSync
    else
      var first := Exchange(sync, InitializeMessage(subaddress), INITIALIZE_RESPONSE);
      if !first.Answered? then SyncFailed(first) else SecondHalf(first.parameter % TWO_16, async)
  }

  /** What a leg that was answered means for the bytes of its stream, however they are split. */
  predicate Answers(dial: Dial, expected: byte, parameter: u32)
    requires dial.Opens?
  {
    match Decode(dial.wire.bytes, MAX_PAYLOAD_SIZE)
    case Parsed(m, _) => m.kind == expected && m.parameter == parameter
    case _ => false
  }

  lemma ExchangeMeaning(dial: Dial, request: Frame, expected: byte, parameter: u32)
    requires dial.Opens? && Steady(dial.wire.plan)
    ensures Exchange(dial, request, expected) == Answered(parameter) <==>
            WriteCount(Outbox([], dial.plan), Encode(request)) >= 0 && Answers(dial, expected, parameter)
  {
    ChunkingInvariance(dial.wire, MAX_PAYLOAD_SIZE);
  }

  /** One leg over any reads: it fails at the write, or at a failing read; otherwise the bytes that the peer
      sends decide, which may carry up to a million bytes of payload. */
  lemma LegExactly(dial: Dial, request: Frame, expected: byte)
    requires dial.Opens?
    ensures var leg := Exchange(dial, request, expected);
            var rest := Receive(dial.wire, 1_000_000).rest;
            && (leg.SendFailed? <==> WriteCount(Outbox([], dial.plan), Encode(request)) == -1)
            && Later(dial.wire, rest)
            && if leg.SendFailed? then true
               else if !Steady(Met(dial.wire, rest)) then leg == BadReply
               else match Decode(dial.wire.bytes, 1_000_000)
                 case Cut => leg == Eof
                 case TurnedDown(_) => leg == BadReply
                 case Parsed(m, _) => leg == if m.kind == expected then Answered(m.parameter) else WrongType
  {
    ReceiveExactly(dial.wire, MAX_PAYLOAD_SIZE);
  }

  /** The Initialize on the wire: 16 bytes of header, and the subaddress behind it. */
  lemma InitializeOnWire(subaddress: Option<Name>)
    requires FitsInt(InitializeMessage(subaddress))
    ensures var bytes := Encode(InitializeMessage(subaddress));
            && bytes[..8] == [0x48, 0x53, 0, 0, 1, 0, 0, 42]
            && LoadBE(bytes[8..16]) == |bytes[16..]|
            && bytes[16..] == if subaddress.Some? then subaddress.value else []
  {
    var m := InitializeMessage(subaddress);
    assert Encode(m) + [] == Encode(m);
    InitializeBytes(m);
    DecodeEncode(m, [], |m.payload|);
    DecodeBytes(Encode(m), |m.payload|);
  }

  /** The AsyncInitialize on the wire: type 17, control 0, the SessionID, no payload. */
  lemma AsyncInitializeOnWire(id: u16)
    ensures var bytes := Encode(AsyncInitializeMessage(id));
            |bytes| == 16 && bytes[..4] == [0x48, 0x53, 17, 0] && LoadBE(bytes[4..8]) == id && LoadBE(bytes[8..]) == 0
  {
    var m := AsyncInitializeMessage(id);
    var bytes := Encode(m);
    assert bytes + [] == bytes && bytes[..16] == bytes && bytes[8..16] == bytes[8..];
    DecodeEncode(m, [], 0);
    DecodeBytes(bytes, 0);
    assert bytes[..4] == bytes[..2] + [bytes[2], bytes[3]];
  }

  /** With streams that do not fail, hs_connect succeeds with a SessionID exactly when a slot is free, both
      connections open, both requests are accepted by the transport, the first message on the
      synchronous stream is an InitializeResponse whose parameter ends in that id, and the first one on
      the asynchronous stream is an AsyncInitializeResponse. */
  lemma DoneExactly(t: Table, subaddress: Option<Name>, sync: Dial, async: Dial, id: u16)
    requires ValidTable(t) && FitsInt(InitializeMessage(subaddress))
    requires sync.Opens? && async.Opens? && Steady(sync.wire.plan) && Steady(async.wire.plan)
    ensures RouteOf(t, subaddress, sync, async) == Done(id) <==>
            && LowestFree(t.taken) < MAX_SESSIONS
            && WriteCount(Outbox([], sync.plan), Encode(InitializeMessage(subaddress))) >= 0
            && WriteCount(Outbox([], async.plan), Encode(AsyncInitializeMessage(id))) >= 0
            && (exists p: u32 :: Answers(sync, INITIALIZE_RESPONSE, p) && p % TWO_16 == id)
            && (exists q: u32 :: Answers(async, ASYNC_INITIALIZE_RESPONSE, q))
  {
    var first, second := InitializeMessage(subaddress), AsyncInitializeMessage(id);
    forall p: u32
      ensures Exchange(sync, first, INITIALIZE_RESPONSE) == Answered(p) <==>
              WriteCount(Outbox([], sync.plan), Encode(first)) >= 0 && Answers(sync, INITIALIZE_RESPONSE, p)
    {
      ExchangeMeaning(sync, first, INITIALIZE_RESPONSE, p);
    }
    forall q: u32
      ensures Exchange(async, second, ASYNC_INITIALIZE_RESPONSE) == Answered(q) <==>
              WriteCount(Outbox([], async.plan), Encode(second)) >= 0 && Answers(async, ASYNC_INITIALIZE_RESPONSE, q)
    {
      ExchangeMeaning(async, second, ASYNC_INITIALIZE_RESPONSE, q);
    }
  }

  /** Which sockets a route has opened. */
  predicate OpensSync(r: Route) {
    r.SyncFailed? || r.NoAsync? || r.AsyncFailed? || r.Done?
  }

  predicate OpensAsync(r: Route) {
    r.AsyncFailed? || r.Done?
  }

  /** close() calls inside msg_receive. */
  function EofCloses(r: Route, async: bool): nat {
    match r
    case SyncFailed(leg) => if !async && leg.Eof? then 1 else 0
    case AsyncFailed(leg, _) => if async && leg.Eof? then 1 else 0
    case _ => 0
  }

  /** close() calls on a socket in all: inside msg_receive, and in the ladder as written (lines 170-183),
      whose labels from error_InitializeResponse down lie below the closing of the synchronous socket. */
  function CloseCount(r: Route, async: bool): nat {
    EofCloses(r, async) +
    match r
    case AsyncFailed(_, _) => 1
    case NoAsync(_) => if async then 0 else 1
    case _ => 0
  }

  /** The invariant of the ledger: a failing hs_connect has closed each socket it opened exactly once, a
      successful one has closed none. */
  predicate Balanced(r: Route) {
    && (OpensSync(r) ==> CloseCount(r, false) == if r.Done? then 0 else 1)
    && (OpensAsync(r) ==> CloseCount(r, true) == if r.Done? then 0 else 1)
  }

  /** The synchronous socket leaks: the Initialize cannot be sent, or what comes back is refused or of the
      wrong type. */
  predicate Leaks(subaddress: Option<Name>, sync: Dial, reply: Parse)
    requires FitsInt(InitializeMessage(subaddress))
  {
    && sync.Opens?
    && (|| WriteCount(Outbox([], sync.plan), Encode(InitializeMessage(subaddress))) == -1
        || reply.TurnedDown?
        || (reply.Parsed? && reply.message.kind != INITIALIZE_RESPONSE))
  }

  /** The asynchronous socket is closed twice: the synchronous leg was answered, the AsyncInitialize went
      out, and the stream ends within the reply. */
  predicate ClosesTwice(subaddress: Option<Name>, sync: Dial, first: Parse, async: Dial, second: Parse)
    requires FitsInt(InitializeMessage(subaddress))
  {
    && sync.Opens? && WriteCount(Outbox([], sync.plan), Encode(InitializeMessage(subaddress))) >= 0
    && first.Parsed? && first.message.kind == INITIALIZE_RESPONSE
    && async.Opens?
    && WriteCount(Outbox([], async.plan), Encode(AsyncInitializeMessage(first.message.parameter % TWO_16))) >= 0
    && second == Cut
  }

  /** What msg_receive makes of the first message a peer sends. */
  function ReplyOn(dial: Dial): Parse {
    if dial.Opens? then AsParse(Receive(dial.wire, MAX_PAYLOAD_SIZE)) else Cut
  }

  function FirstMessage(dial: Dial): Parse {
    if dial.Opens? then Decode(dial.wire.bytes, MAX_PAYLOAD_SIZE) else Cut
  }

  /** The ladder as written over the repaired msg_receive, for every transport: the ledger is balanced unless a
      slot is free and one of those two happens. */
  lemma LadderExact(t: Table, subaddress: Option<Name>, sync: Dial, async: Dial)
    requires ValidTable(t) && FitsInt(InitializeMessage(subaddress))
    ensures Balanced(RouteOf(t, subaddress, sync, async)) <==>
            LowestFree(t.taken) == MAX_SESSIONS ||
            !(Leaks(subaddress, sync, ReplyOn(sync)) ||
              ClosesTwice(subaddress, sync, ReplyOn(sync), async, ReplyOn(async)))
  {
  }

  /** The same over streams that do not fail, in terms of the bytes the peers send, however they are split. */
  lemma LadderExactOnBytes(t: Table, subaddress: Option<Name>, sync: Dial, async: Dial)
    requires ValidTable(t) && FitsInt(InitializeMessage(subaddress))
    requires (sync.Opens? ==> Steady(sync.wire.plan)) && (async.Opens? ==> Steady(async.wire.plan))
    ensures Balanced(RouteOf(t, subaddress, sync, async)) <==>
            LowestFree(t.taken) == MAX_SESSIONS ||
            !(Leaks(subaddress, sync, FirstMessage(sync)) ||
              ClosesTwice(subaddress, sync, FirstMessage(sync), async, FirstMessage(async)))
  {
    if sync.Opens? {
      ChunkingInvariance(sync.wire, MAX_PAYLOAD_SIZE);
    }
    if async.Opens? {
      ChunkingInvariance(async.wire, MAX_PAYLOAD_SIZE);
    }
    LadderExact(t, subaddress, sync, async);
  }

  /** A peer that sends just this frame, over a path that accepts everything. */
  function Sends(m: Frame, plan: seq<ReadEvent>): Dial {
    Opens(Wire(Encode(m), plan), [])
  }

  /** One leg against a peer that sends just this frame. */
  lemma LegOf(m: Frame, plan: seq<ReadEvent>, path: seq<WriteEvent>, request: Frame, expected: byte)
    requires Steady(plan) && WriteCount(Outbox([], path), Encode(request)) >= 0
    ensures Exchange(Opens(Wire(Encode(m), plan), path), request, expected) ==
            if !Acceptable(m, MAX_PAYLOAD_SIZE) then BadReply
            else if m.kind == expected then Answered(m.parameter)
            else WrongType
  {
    var w := Wire(Encode(m), plan);
    ChunkingInvariance(w, MAX_PAYLOAD_SIZE);
    DecodeEncode(m, [], MAX_PAYLOAD_SIZE);
    assert Encode(m) + [] == Encode(m);
  }

  /** Against one that closes without a word, and one that keeps silent until the read times out. */
  lemma LegOfNothing(plan: seq<ReadEvent>, path: seq<WriteEvent>, request: Frame, expected: byte)
    requires WriteCount(Outbox([], path), Encode(request)) >= 0
    ensures Steady(plan) ==> Exchange(Opens(Wire([], plan), path), request, expected) == Eof
    ensures Exchange(Opens(Wire([], [ReadFails] + plan), path), request, expected) == BadReply
  {
    assert Steady(plan) ==> Fetch(Wire([], plan), MSG_HEADER_SIZE).AtEof?;
    assert Fetch(Wire([], [ReadFails] + plan), MSG_HEADER_SIZE).Lost?;
  }

  /** hs_connect has opened the synchronous socket, failed, and never closed it. */
  predicate Leaked(t: Table, subaddress: Option<Name>, sync: Dial, async: Dial)
    requires ValidTable(t) && FitsInt(InitializeMessage(subaddress))
  {
    var r := RouteOf(t, subaddress, sync, async);
    OpensSync(r) && !r.Done? && CloseCount(r, false) == 0
  }

  lemma FailedLegLeaks(t: Table, subaddress: Option<Name>, sync: Dial, async: Dial)
    requires ValidTable(t) && FitsInt(InitializeMessage(subaddress)) && LowestFree(t.taken) < MAX_SESSIONS
    requires sync.Opens?
    requires var leg := Exchange(sync, InitializeMessage(subaddress), INITIALIZE_RESPONSE);
             leg.SendFailed? || leg.BadReply? || leg.WrongType?
    ensures Leaked(t, subaddress, sync, async)
  {
  }

  /** Leaks: an Initialize that cannot be written, a server that answers FatalError, one that answers with
      something else. */
  lemma LeakingDials(t: Table, subaddress: Option<Name>, async: Dial)
    requires ValidTable(t) && FitsInt(InitializeMessage(subaddress)) && LowestFree(t.taken) < MAX_SESSIONS
    ensures Leaked(t, subaddress, Opens(Wire([], []), [WriteFails]), async)
    ensures Leaked(t, subaddress, Sends(Message(FATAL_ERROR, 0, 0, []), []), async)
    ensures Leaked(t, subaddress, Sends(Message(DATA_END, 0, 0, []), []), async)
  {
    LegOf(Message(FATAL_ERROR, 0, 0, []), [], [], InitializeMessage(subaddress), INITIALIZE_RESPONSE);
    LegOf(Message(DATA_END, 0, 0, []), [], [], InitializeMessage(subaddress), INITIALIZE_RESPONSE);
    FailedLegLeaks(t, subaddress, Opens(Wire([], []), [WriteFails]), async);
    FailedLegLeaks(t, subaddress, Sends(Message(FATAL_ERROR, 0, 0, []), []), async);
    FailedLegLeaks(t, subaddress, Sends(Message(DATA_END, 0, 0, []), []), async);
  }

  /** Two closes: a server that answers the Initialize and closes its second connection without a word. */
  lemma DoublyClosingDials(t: Table, subaddress: Option<Name>, id: u16)
    requires ValidTable(t) && FitsInt(InitializeMessage(subaddress)) && LowestFree(t.taken) < MAX_SESSIONS
    ensures var r := RouteOf(t, subaddress, AnswersInitialize(id), Opens(Wire([], []), []));
            OpensAsync(r) && CloseCount(r, true) == 2
  {
    LegOf(Message(INITIALIZE_RESPONSE, 0, id, []), [], [], InitializeMessage(subaddress), INITIALIZE_RESPONSE);
    LegOfNothing([], [], AsyncInitializeMessage(id), ASYNC_INITIALIZE_RESPONSE);
  }

  /** The stream behind a leg: what msg_receive has left of it, if it was called. */
  function Heard(dial: Dial, request: Frame): Wire
    requires dial.Opens?
  {
    if WriteCount(Outbox([], dial.plan), Encode(request)) == -1 then dial.wire
    else Receive(dial.wire, MAX_PAYLOAD_SIZE).rest
  }

  /** A socket on which one request was put and its reply awaited. */
  predicate Used(socket: Socket, dial: Dial, request: Frame)
    reads socket
  {
    && dial.Opens? && socket.wire == Heard(dial, request)
    && socket.out == AfterWrite(Outbox([], dial.plan), Encode(request))
  }

  /** What hs_connect has done to the sockets it opened: its Initialize, and an AsyncInitialize carrying
      the SessionID of the response. */
  predicate Spoken(route: Route, subaddress: Option<Name>, dialSync: Dial, dialAsync: Dial,
                   sync: Socket?, async: Socket?)
    requires FitsInt(InitializeMessage(subaddress))
    reads sync, async
  {
    && (sync != null ==> Used(sync, dialSync, InitializeMessage(subaddress)))
    && (async != null ==>
          (route.Done? || route.AsyncFailed?) && Used(async, dialAsync, AsyncInitializeMessage(route.id)))
  }

  /** One leg of the exchange over an open socket. */
  method RunLeg(socket: Socket, dial: Dial, kind: byte, parameter: u32, payload: seq<byte>, expected: byte)
    returns (leg: Leg)
    requires dial.Opens? && socket.wire == dial.wire && socket.out == Outbox([], dial.plan) && socket.closed == 0
    requires FitsInt(Message(kind, 0, parameter, payload))
    modifies socket
    ensures leg == Exchange(dial, Message(kind, 0, parameter, payload), expected)
    ensures Used(socket, dial, Message(kind, 0, parameter, payload))
    ensures socket.closed == if leg.Eof? then 1 else 0
  {
    var message := MsgCreate(kind, 0, parameter, |payload|, payload);
    assert payload[..|payload|] == payload;
    var sent := MsgSend(socket, message, Message(kind, 0, parameter, payload));
    if sent == -1 {
      return SendFailed;
    }
    var reply := MsgReceive(socket, MAX_PAYLOAD_SIZE);
    if reply == None {
      return if socket.closed > 0 then Eof else BadReply;
    }
    leg := if reply.value.kind == expected then Answered(reply.value.parameter) else WrongType;
  }

  method Open(dial: Dial) returns (socket: Socket?)
    ensures dial.Unreachable? <==> socket == null
    ensures socket != null ==>
              fresh(socket) && socket.wire == dial.wire && socket.out == Outbox([], dial.plan) && socket.closed == 0
  {
    if dial.Unreachable? {
      return null;
    }
    socket := new Socket(dial.wire, Outbox([], dial.plan));
  }

  /** Lines 63-118 of hs_connect: the synchronous channel. */
  method FirstLeg(table: SessionTable, device: nat, subaddress: Option<Name>, dial: Dial)
    returns (leg: Leg, sync: Socket?)
    requires table.Valid() && device < MAX_SESSIONS && FitsInt(InitializeMessage(subaddress))
    modifies table.slots
    ensures dial.Unreachable? <==> sync == null
    ensures sync == null ==> table.slots[..] == old(table.slots[..])
    ensures table.View() ==
            if sync != null && leg.Answered? then Store(old(table.View()), device, leg.parameter % TWO_16).table
            else old(table.View())
    ensures sync != null ==>
              var s := old(table.slots[device]).(socketSync := sync);
              var m := InitializeMessage(subaddress);
              && fresh(sync) && leg == Exchange(dial, m, INITIALIZE_RESPONSE) && Used(sync, dial, m)
              && sync.closed == (if leg.Eof? then 1 else 0)
              && table.slots[..] ==
                 old(table.slots[..])[device := if leg.Answered? then s.(sessionId := leg.parameter % TWO_16) else s]
  {
    leg := SendFailed;
    sync := Open(dial);
    if sync == null {
      return;
    }
    UpdateView(table.slots[..], device, table.slots[device].(socketSync := sync), table.next);
    table.slots[device] := table.slots[device].(socketSync := sync);
    var m := InitializeMessage(subaddress);
    leg := RunLeg(sync, dial, m.kind, m.parameter, m.payload, INITIALIZE_RESPONSE);
    if leg.Answered? {
      UpdateView(table.slots[..], device, table.slots[device].(sessionId := leg.parameter % TWO_16), table.next);
      table.slots[device] := table.slots[device].(sessionId := leg.parameter % TWO_16);
    }
  }

  /** Lines 122-157 of hs_connect: the asynchronous channel. */
  method SecondLeg(table: SessionTable, device: nat, dial: Dial) returns (route: Route, async: Socket?)
    requires table.Valid() && device < MAX_SESSIONS
    modifies table.slots
    ensures route == SecondHalf(old(table.slots[device]).sessionId, dial)
    ensures table.View() == old(table.View())
    ensures async != null <==> OpensAsync(route)
    ensures async == null ==> table.slots[..] == old(table.slots[..])
    ensures async != null ==>
              && fresh(async) && Used(async, dial, AsyncInitializeMessage(route.id))
              && async.closed == EofCloses(route, true)
              && table.slots[..] == old(table.slots[..])[device := old(table.slots[device]).(socketAsync := async)]
  {
    var id := table.slots[device].sessionId;
    async := Open(dial);
    if async == null {
      return NoAsync(id), async;
    }
    UpdateView(table.slots[..], device, table.slots[device].(socketAsync := async), table.next);
    table.slots[device] := table.slots[device].(socketAsync := async);
    var leg := RunLeg(async, dial, ASYNC_INITIALIZE, id, [], ASYNC_INITIALIZE_RESPONSE);
    route := if !leg.Answered? then AsyncFailed(leg, id) else Done(id);
  }

  /** The session table when the main line has taken this route. */
  function Footprint(t: Table, r: Route): (u: Table)
    requires ValidTable(t)
    ensures ValidTable(u)
  {
    var a := Allocate(t);
    if a.result >= 0 && (r.NoAsync? || r.AsyncFailed? || r.Done?) then Store(a.table, a.result, r.id).table else a.table
  }

  /** And when hs_connect has returned. */
  function Settles(t: Table, r: Route): (u: Table)
    requires ValidTable(t)
    ensures ValidTable(u)
  {
    if r.Done? then Footprint(t, r) else Release(Footprint(t, r), Allocate(t).result).table
  }

  /** Lines 55-168 of hs_connect: everything but the ladder, in two halves. */
  method Attempt(table: SessionTable, subaddress: Option<Name>, dialSync: Dial, dialAsync: Dial)
    returns (route: Route, device: int, sync: Socket?, async: Socket?)
    requires table.Valid() && FitsInt(InitializeMessage(subaddress))
    modifies table`next, table.slots
    ensures route == RouteOf(old(table.View()), subaddress, dialSync, dialAsync)
    ensures device == Allocate(old(table.View())).result
    ensures table.View() == Footprint(old(table.View()), route)
    ensures Spoken(route, subaddress, dialSync, dialAsync, sync, async)
    ensures OpensSync(route) <==> sync != null
    ensures OpensAsync(route) <==> async != null
    ensures sync != null ==> fresh(sync) && sync != async && sync.closed == EofCloses(route, false)
    ensures async != null ==> fresh(async) && async.closed == EofCloses(route, true)
    ensures route.Done? ==>
              && 0 <= device < MAX_SESSIONS
              && table.slots[device] == NewSession(route.id).(socketSync := sync, socketAsync := async)
    ensures if device < 0 then table.slots[..] == old(table.slots[..])
            else device < MAX_SESSIONS && table.slots[..] == old(table.slots[..])[device := table.slots[device]]
  {
    sync, async := null, null;
    device := table.SessionNew();
    if device < 0 {
      return NoSession, device, sync, async;
    }
    var leg;
    leg, sync := FirstLeg(table, device, subaddress, dialSync);
    if sync == null {
      route := NoSync;
    } else if !leg.Answered? {
      route := SyncFailed(leg);
    } else {
      route, async := SecondLeg(table, device, dialAsync);
    }
  }

  /** Changing a slot changes its SessionID in the table's view, and nothing else if the flag stays. */
  lemma UpdateView(slots: seq<Session>, i: nat, s: Session, next: u16)
    requires i < |slots| && s.taken == slots[i].taken
    ensures var t := TableOf(slots, next); TableOf(slots[i := s], next) == t.(ids := t.ids[i := s.sessionId])
    ensures s.sessionId == slots[i].sessionId ==> TableOf(slots[i := s], next) == TableOf(slots, next)
  {
    TableOfUpdate(slots, i, s, next, next);
    var t := TableOf(slots, next);
    assert t.taken[i := s.taken] == t.taken;
    assert s.sessionId == slots[i].sessionId ==> t.ids[i := s.sessionId] == t.ids;
  }

  /** A session_new undone by session_free leaves the same slots taken. */
  lemma ReleaseUndoesAllocate(t: Table)
    requires ValidTable(t) && Allocate(t).result >= 0
    ensures var a := Allocate(t);
            Release(a.table, a.result).result == 0 && Release(a.table, a.result).table.taken == t.taken
  {
    var i := LowestFree(t.taken);
    assert t.taken[i := true][i := false] == t.taken;
  }

  /** A failing hs_connect leaves the same slots taken as before, a successful one takes one more. */
  lemma SettlesTaken(t: Table, r: Route)
    requires ValidTable(t) && (r.Done? ==> Allocate(t).result >= 0)
    ensures Settles(t, r).taken == if r.Done? then t.taken[LowestFree(t.taken) := true] else t.taken
    ensures Allocate(t).result < 0 ==> Settles(t, r) == t
  {
    if Allocate(t).result >= 0 {
      ReleaseUndoesAllocate(t);
    }
  }

  /** The history after hs_connect has taken this route in thread k: session_new, the assignment of the
      SessionID it received, and session_free if it fails. */
  function AfterConnect(log: seq<Event>, r: Route, k: nat): seq<Event> {
    var a := Allocate(Replay(log)).result;
    if a < 0 then log + [Event(k, NewCall, a)]
    else if r.Done? then Linked(log, r, k, a)
    else Linked(log, r, k, a) + [Event(k, FreeCall(a), 0)]
  }

  function Linked(log: seq<Event>, r: Route, k: nat, a: nat): seq<Event> {
    var begun := log + [Event(k, NewCall, a)];
    if r.NoAsync? || r.AsyncFailed? || r.Done? then begun + [Event(k, StoreCall(a, r.id), 0)] else begun
  }

  lemma FootprintIsHistory(log: seq<Event>, r: Route, k: nat)
    requires Faithful(log) && Allocate(Replay(log)).result >= 0
    ensures var linked := Linked(log, r, k, Allocate(Replay(log)).result);
            Faithful(linked) && Replay(linked) == Footprint(Replay(log), r)
  {
    var a := Allocate(Replay(log)).result;
    var e := Event(k, NewCall, a);
    AppendEvent(log, e);
    if r.NoAsync? || r.AsyncFailed? || r.Done? {
      AppendEvent(log + [e], Event(k, StoreCall(a, r.id), 0));
    }
  }

  /** hs_connect as a piece of history: the session table it leaves is that history replayed. */
  lemma ConnectIsHistory(log: seq<Event>, r: Route, k: nat)
    requires Faithful(log) && (r.NoSession? <==> Allocate(Replay(log)).result < 0)
    ensures Faithful(AfterConnect(log, r, k)) && Replay(AfterConnect(log, r, k)) == Settles(Replay(log), r)
  {
    var t := Replay(log);
    var a := Allocate(t).result;
    if a < 0 {
      AppendEvent(log, Event(k, NewCall, a));
      SettlesTaken(t, r);
    } else {
      FootprintIsHistory(log, r, k);
      if !r.Done? {
        AppendEvent(Linked(log, r, k, a), Event(k, FreeCall(a), 0));
      }
    }
  }

  /** What a finished hs_connect has done to the slots. */
  twostate predicate Settled(table: SessionTable, route: Route, r: int, new sync: Socket?, new async: Socket?)
    requires table.Valid()
    reads table, table.slots
  {
    && (sync != null <==> OpensSync(route)) && (async != null <==> OpensAsync(route))
    && (sync != null ==> sync != async)
    && table.View() == Settles(old(table.View()), route)
    && (forall i :: 0 <= i < MAX_SESSIONS && i != Allocate(old(table.View())).result ==>
          table.slots[i] == old(table.slots[i]))
    && (!route.Done? ==> r == -1 && table.View().taken == old(table.View()).taken)
    && (route.Done? ==>
          && r == LowestFree(old(table.View()).taken) < MAX_SESSIONS
          && table.slots[r] == NewSession(route.id).(socketSync := sync, socketAsync := async))
  }

  /** hs_connect as written. Route and sockets are returned for the sake of the contract only. */
  method HsConnect(table: SessionTable, subaddress: Option<Name>, dialSync: Dial, dialAsync: Dial)
    returns (r: int, route: Route, sync: Socket?, async: Socket?)
    requires table.Valid() && FitsInt(InitializeMessage(subaddress))
    modifies table`next, table.slots
    ensures route == RouteOf(old(table.View()), subaddress, dialSync, dialAsync)
    ensures sync != null ==> fresh(sync) && sync.closed == CloseCount(route, false)
    ensures async != null ==> fresh(async) && async.closed == CloseCount(route, true)
    ensures Spoken(route, subaddress, dialSync, dialAsync, sync, async)
    ensures Settled(table, route, r, sync, async)
  {
    var device;
    route, device, sync, async := Attempt(table, subaddress, dialSync, dialAsync);
    if route.Done? {
      return device, route, sync, async;
    }
    if route.AsyncFailed? {
      async.Disconnect();
    }
    if route.AsyncFailed? || route.NoAsync? {
      sync.Disconnect();
    }
    if !route.NoSession? {
      var _ := table.SessionFree(device);
    }
    SettlesTaken(old(table.View()), route);
    r := -1;
  }

  /** hs_connect, repaired: the synchronous socket is closed on every failing path behind its opening,
      and no socket that msg_receive has closed is closed again. */
  method HsConnectRepaired(table: SessionTable, subaddress: Option<Name>, dialSync: Dial, dialAsync: Dial)
    returns (r: int, route: Route, sync: Socket?, async: Socket?)
    requires table.Valid() && FitsInt(InitializeMessage(subaddress))
    modifies table`next, table.slots
    ensures route == RouteOf(old(table.View()), subaddress, dialSync, dialAsync)
    ensures sync != null ==> fresh(sync) && sync.closed == if route.Done? then 0 else 1
    ensures async != null ==> fresh(async) && async.closed == if route.Done? then 0 else 1
    ensures Spoken(route, subaddress, dialSync, dialAsync, sync, async)
    ensures Settled(table, route, r, sync, async)
  {
    var device;
    route, device, sync, async := Attempt(table, subaddress, dialSync, dialAsync);
    if route.Done? {
      return device, route, sync, async;
    }
    if async != null && async.closed == 0 {
      async.Disconnect();
    }
    if sync != null && sync.closed == 0 {
      sync.Disconnect();
    }
    if !route.NoSession? {
      var _ := table.SessionFree(device);
    }
    SettlesTaken(old(table.View()), route);
    r := -1;
  }

  /** hs_disconnect. */
  method HsDisconnect(table: SessionTable, device: nat) returns (r: int)
    requires table.Valid() && device < MAX_SESSIONS
    requires table.slots[device].socketSync != table.slots[device].socketAsync || table.slots[device].socketSync == null
    modifies table.slots, {table.slots[device].socketSync, table.slots[device].socketAsync}
    ensures r == 0 && table.View() == Release(old(table.View()), device).table
    ensures table.slots[..] == old(table.slots[..])[device := old(table.slots[device]).(taken := false)]
    ensures var s := old(table.slots[device]);
            && (s.socketSync != null ==> s.socketSync.closed == old(table.slots[device].socketSync.closed) + 1)
            && (s.socketAsync != null ==> s.socketAsync.closed == old(table.slots[device].socketAsync.closed) + 1)
  {
    if table.slots[device].socketSync != null {
      table.slots[device].socketSync.Disconnect();
    }
    if table.slots[device].socketAsync != null {
      table.slots[device].socketAsync.Disconnect();
    }
    var _ := table.SessionFree(device);
    r := 0;
  }

  /** How the outcomes of the two legs make a route. */
  lemma RouteFromLegs(t: Table, subaddress: Option<Name>, sync: Dial, async: Dial, first: Leg, second: Leg)
    requires ValidTable(t) && FitsInt(InitializeMessage(subaddress)) && sync.Opens? && async.Opens?
    requires Exchange(sync, InitializeMessage(subaddress), INITIALIZE_RESPONSE) == first
    requires first.Answered? ==>
               second ==
               Exchange(async, AsyncInitializeMessage(first.parameter % TWO_16), ASYNC_INITIALIZE_RESPONSE)
    ensures RouteOf(t, subaddress, sync, async) ==
            if Allocate(t).result < 0 then NoSession
            else if !first.Answered? then SyncFailed(first)
            else if !second.Answered? then AsyncFailed(second, first.parameter % TWO_16)
            else Done(first.parameter % TWO_16)
  {
  }

  /** Peers that answer both requests. */
  function AnswersInitialize(id: u16): Dial {
    Sends(Message(INITIALIZE_RESPONSE, 0, id, []), [])
  }

  function AnswersAsync(): Dial {
    Sends(Message(ASYNC_INITIALIZE_RESPONSE, 0, 0, []), [])
  }

  lemma AnsweringLegs(subaddress: Option<Name>, id: u16)
    requires FitsInt(InitializeMessage(subaddress))
    ensures Exchange(AnswersInitialize(id), InitializeMessage(subaddress), INITIALIZE_RESPONSE) == Answered(id)
    ensures Exchange(AnswersAsync(), AsyncInitializeMessage(id), ASYNC_INITIALIZE_RESPONSE) == Answered(0)
  {
    LegOf(Message(INITIALIZE_RESPONSE, 0, id, []), [], [], InitializeMessage(subaddress), INITIALIZE_RESPONSE);
    LegOf(Message(ASYNC_INITIALIZE_RESPONSE, 0, 0, []), [], [], AsyncInitializeMessage(id),
          ASYNC_INITIALIZE_RESPONSE);
  }

  /** With them hs_connect succeeds. */
  lemma AnsweringDials(t: Table, subaddress: Option<Name>, id: u16)
    requires ValidTable(t) && FitsInt(InitializeMessage(subaddress)) && LowestFree(t.taken) < MAX_SESSIONS
    ensures RouteOf(t, subaddress, AnswersInitialize(id), AnswersAsync()) == Done(id)
  {
    var n: nat := id;
    assert n % TWO_16 == n && Allocate(t).result >= 0;
    AnsweringLegs(subaddress, id);
    RouteFromLegs(t, subaddress, AnswersInitialize(id), AnswersAsync(), Answered(id), Answered(0));
  }

  /** Two devices, one SessionID: a fresh table, and two servers that give out slot 0 each. */
  method ConnectTwice() returns (table: SessionTable, first: int, second: int)
    ensures fresh(table) && fresh(table.slots) && table.Valid()
    ensures first == 0 && second == 1 && table.View().taken[0] && table.View().taken[1]
    ensures table.View().ids[0] == table.View().ids[1] == 0
  {
    table := new SessionTable();
    LowestFreeUnique(table.View().taken, 0);
    AnsweringDials(table.View(), None, 0);
    var route, x, y;
    first, route, x, y := HsConnect(table, None, AnswersInitialize(0), AnswersAsync());
    SettlesTaken(EmptyTable(), route);
    LowestFreeUnique(table.View().taken, 1);
    AnsweringDials(table.View(), None, 0);
    SettlesTaken(table.View(), Done(0));
    second, route, x, y := HsConnect(table, None, AnswersInitialize(0), AnswersAsync());
  }
}
