/** hs_connect against hs_process, byte for byte: the client's frames run through the server's loop, and
    what that writes is what the client reads. */
module Establish {
  import opened ByteOrder
  import opened Transport
  import opened Message
  import opened Framing
  import opened Segmentation
  import opened Sessions
  import opened Registry
  import S = Server
  import C = Connect
  import H = Handshake
  import L = SessionLog
  import T = SessionThreads
  import K = Client

  /** How one connection treats what is read and written on it: the server's reads and the client's, and the
      client's writes and the server's. */
  datatype Line = Line(up: seq<ReadEvent>, down: seq<ReadEvent>, client: seq<WriteEvent>, server: seq<WriteEvent>)

  /** The first write takes all of a frame with so much payload. */
  predicate Takes(path: seq<WriteEvent>, payload: nat) {
    path == [] || (path[0].WriteAtMost? && path[0].limit >= MSG_HEADER_SIZE + payload)
  }

  lemma TakenInFull(path: seq<WriteEvent>, m: Frame)
    requires Takes(path, |m.payload|)
    ensures WriteCount(Outbox([], path), Encode(m)) == |Encode(m)|
    ensures AfterWrite(Outbox([], path), Encode(m)).sent == Encode(m)
  {
    assert [] + Encode(m)[..|Encode(m)|] == Encode(m);
  }

  /** A connection thread that is sent one frame, and then nothing more. */
  function Answer(m: Frame, line: Line, t: Table, c: S.Config): S.Run
    requires ValidTable(t) && S.ValidConfig(c)
  {
    S.Process(Wire(Encode(m), line.up), Null, t, Outbox([], line.server), c)
  }

  lemma AnswerMeaning(m: Frame, line: Line, t: Table, c: S.Config)
    requires ValidTable(t) && S.ValidConfig(c) && |m.payload| <= S.Limit(c) && S.Covers(line.up, [m], t, c)
    requires Takes(line.server, 0)
    ensures var r := S.React(t, HeaderOf(m), S.Held(Null, HeaderOf(m), m.payload), c);
            var run := Answer(m, line, t, c);
            && run.table == r.table && (S.CrashedAt(run.log) <==> r.effect.Crashed?)
            && run.out.sent == if r.effect.Replied? then Encode(r.effect.message) else []
  {
    S.SoleFrame(Wire(Encode(m), line.up), m, Null, t, Outbox([], line.server), c);
    S.RepliesAreEmpty(t, HeaderOf(m), S.Held(Null, HeaderOf(m), m.payload), c);
    EmittedInFull(line.server, S.React(t, HeaderOf(m), S.Held(Null, HeaderOf(m), m.payload), c).effect);
  }

  lemma EmittedInFull(path: seq<WriteEvent>, e: S.Effect)
    requires Takes(path, 0) && (e.Replied? ==> e.message.payload == [])
    ensures S.Emit(Outbox([], path), e).sent == if e.Replied? then Encode(e.message) else []
  {
    if e.Replied? {
      TakenInFull(path, e.message);
    }
  }

  lemma ReplyParameter(id: nat)
    requires id < MAX_SESSIONS
    ensures (HISLIP_VERSION * TWO_16 + id) % TWO_32 % TWO_16 == id
    ensures (HISLIP_VERSION * TWO_16 + HISLIP_VENDOR_ID) / TWO_16 == HISLIP_VERSION
  {
  }

  /** What the server makes of an Initialize as the first message of its connection. */
  datatype Outlook = Ignored | Full | Crashes | Grants(slot: nat)

  function OutlookOf(subaddress: Option<Name>, t: Table, c: S.Config): (r: Outlook)
    requires FitsInt(C.InitializeMessage(subaddress)) && ValidTable(t) && S.ValidConfig(c)
    ensures r.Grants? ==> r.slot == LowestFree(t.taken) < MAX_SESSIONS
  {
    if |C.InitializeMessage(subaddress).payload| > S.Limit(c) then Ignored
    else if LowestFree(t.taken) == MAX_SESSIONS then Full
    else if C.InitializeMessage(subaddress).payload == [] && c.calls != [] then Crashes
    else Grants(LowestFree(t.taken))
  }

  function ResponseFor(slot: nat): Frame {
    Message(INITIALIZE_RESPONSE, CC_PREFER_SYNC, (HISLIP_VERSION * TWO_16 + slot) % TWO_32, [])
  }

  function InitializeReply(o: Outlook): seq<byte> {
    if o.Grants? then Encode(ResponseFor(o.slot)) else []
  }

  function AsyncInitializeReply(): seq<byte> {
    Encode(Message(ASYNC_INITIALIZE_RESPONSE, 0, HISLIP_VENDOR_ID, []))
  }

  /** The switch on hs_connect's first message, received as the first one of its connection. */
  lemma InitializeReaction(subaddress: Option<Name>, t: Table, c: S.Config)
    requires FitsInt(C.InitializeMessage(subaddress)) && ValidTable(t) && S.ValidConfig(c)
    requires !OutlookOf(subaddress, t, c).Ignored?
    ensures var m := C.InitializeMessage(subaddress);
            var r := S.React(t, HeaderOf(m), S.Held(Null, HeaderOf(m), m.payload), c);
            && r.table == Allocate(t).table
            && (r.effect.Crashed? <==> OutlookOf(subaddress, t, c).Crashes?)
            && (if r.effect.Replied? then Encode(r.effect.message) else []) ==
               InitializeReply(OutlookOf(subaddress, t, c))
  {
    ReplyParameter(0);
  }

  /** No reads are short and no payload read fails on the way of this frame, unless the server drops it. */
  predicate Arrives(m: Frame, line: Line, t: Table, c: S.Config)
    requires ValidTable(t) && S.ValidConfig(c)
  {
    |m.payload| > S.Limit(c) || S.Covers(line.up, [m], t, c)
  }

  /** The server's half of the synchronous leg. */
  lemma InitializeAnswer(subaddress: Option<Name>, line: Line, t: Table, c: S.Config)
    requires FitsInt(C.InitializeMessage(subaddress)) && ValidTable(t) && S.ValidConfig(c)
    requires Arrives(C.InitializeMessage(subaddress), line, t, c) && Takes(line.server, 0)
    ensures var run, o := Answer(C.InitializeMessage(subaddress), line, t, c), OutlookOf(subaddress, t, c);
            && run.table == (if o.Ignored? then t else Allocate(t).table)
            && (S.CrashedAt(run.log) <==> o.Crashes?) && run.out.sent == InitializeReply(o)
  {
    var m := C.InitializeMessage(subaddress);
    if |m.payload| > S.Limit(c) {
      S.OverlongNameIsIgnored(Wire(Encode(m), line.up), m.payload, Null, t, Outbox([], line.server), c);
    } else {
      InitializeReaction(subaddress, t, c);
      AnswerMeaning(m, line, t, c);
    }
  }

  lemma AsyncInitializeAnswer(id: u16, line: Line, t: Table, c: S.Config)
    requires ValidTable(t) && S.ValidConfig(c) && S.Covers(line.up, [C.AsyncInitializeMessage(id)], t, c)
    requires Takes(line.server, 0)
    ensures var run := Answer(C.AsyncInitializeMessage(id), line, t, c);
            && run.table == t
            && run.out.sent == AsyncInitializeReply()
  {
    AnswerMeaning(C.AsyncInitializeMessage(id), line, t, c);
  }

  /** What the client sees of a connection on which the server has sent these bytes. A server that has stopped
      or crashed ends the stream; one that ignores the client keeps silent until its read times out. */
  function Seen(sent: seq<byte>, o: Outlook, line: Line): C.Dial {
    C.Opens(Wire(sent, if o.Ignored? then [ReadFails] + line.down else line.down), line.client)
  }

  /** The legs of a client that is granted a slot. */
  lemma GrantedFirst(m: Frame, reply: Frame, x: Line)
    requires Steady(x.down) && Takes(x.client, |m.payload|) && reply.kind == INITIALIZE_RESPONSE && reply.payload == []
    ensures C.Exchange(C.Opens(Wire(Encode(reply), x.down), x.client), m, INITIALIZE_RESPONSE) ==
            C.Answered(reply.parameter)
  {
    TakenInFull(x.client, m);
    C.LegOf(reply, x.down, x.client, m, INITIALIZE_RESPONSE);
  }

  lemma GrantedSecond(m: Frame, y: Line)
    requires Steady(y.down) && Takes(y.client, |m.payload|)
    ensures C.Exchange(C.Opens(Wire(AsyncInitializeReply(), y.down), y.client), m, ASYNC_INITIALIZE_RESPONSE) ==
            C.Answered(HISLIP_VENDOR_ID)
  {
    TakenInFull(y.client, m);
    C.LegOf(Message(ASYNC_INITIALIZE_RESPONSE, 0, HISLIP_VENDOR_ID, []), y.down, y.client, m,
            ASYNC_INITIALIZE_RESPONSE);
  }

  /** The synchronous leg of a client that gets nothing. */
  lemma DeniedLeg(m: Frame, o: Outlook, x: Line)
    requires Steady(x.down) && !o.Grants? && Takes(x.client, |m.payload|)
    ensures C.Exchange(Seen(InitializeReply(o), o, x), m, INITIALIZE_RESPONSE) ==
            if o.Ignored? then C.BadReply else C.Eof
  {
    TakenInFull(x.client, m);
    C.LegOfNothing(x.down, x.client, m, INITIALIZE_RESPONSE);
  }

  /** The client's half: what hs_connect makes of the replies. */
  lemma ClientHalf(t: Table, subaddress: Option<Name>, o: Outlook, x: Line, y: Line)
    requires ValidTable(t) && FitsInt(C.InitializeMessage(subaddress)) && (o.Grants? ==> o.slot < MAX_SESSIONS)
    requires Steady(x.down) && Steady(y.down)
    requires Takes(x.client, |C.InitializeMessage(subaddress).payload|) && Takes(y.client, 0)
    ensures C.RouteOf(t, subaddress, Seen(InitializeReply(o), o, x),
                      C.Opens(Wire(AsyncInitializeReply(), y.down), y.client)) ==
            if Allocate(t).result < 0 then C.NoSession
            else if o.Ignored? then C.SyncFailed(C.BadReply)
            else if o.Grants? then C.Done(o.slot)
            else C.SyncFailed(C.Eof)
  {
    var m := C.InitializeMessage(subaddress);
    var sync := Seen(InitializeReply(o), o, x);
    var async := C.Opens(Wire(AsyncInitializeReply(), y.down), y.client);
    if o.Grants? {
      var parameter := ResponseFor(o.slot).parameter;
      ReplyParameter(o.slot);
      assert parameter % TWO_16 == o.slot;
      GrantedFirst(m, ResponseFor(o.slot), x);
      GrantedSecond(C.AsyncInitializeMessage(o.slot), y);
      C.RouteFromLegs(t, subaddress, sync, async, C.Answered(parameter), C.Answered(HISLIP_VENDOR_ID));
    } else {
      DeniedLeg(m, o, x);
      C.RouteFromLegs(t, subaddress, sync, async, if o.Ignored? then C.BadReply else C.Eof, C.Eof);
    }
  }

  /** Against this server, over two lines x and y on which every write takes its frame in full, no read comes
      short on the server's side and none fails on the client's, hs_connect succeeds exactly when both
      sides have a free slot, the subaddress is within the server's size limit, and one is named or nothing
      is registered. It then stores the slot the server took for it, and that is the only change to the
      server's table. A server that is full or crashes ends the stream; one that ignores an overlong name
      lets the client wait. `first` and `second` are the runs of the two connection threads. */
  lemma ConnectSucceedsExactly(
      client: Table, server: Table, c: S.Config, subaddress: Option<Name>, first: S.Run, second: S.Run,
      x: Line, y: Line)
    requires ValidTable(client) && ValidTable(server) && S.ValidConfig(c) && FitsInt(C.InitializeMessage(subaddress))
    requires first == Answer(C.InitializeMessage(subaddress), x, server, c) && ValidTable(first.table)
    requires second == Answer(C.AsyncInitializeMessage(LowestFree(server.taken)), y, first.table, c)
    requires Arrives(C.InitializeMessage(subaddress), x, server, c)
    requires S.Covers(y.up, [C.AsyncInitializeMessage(LowestFree(server.taken))], first.table, c)
    requires Steady(x.down) && Steady(y.down) && Takes(x.server, 0) && Takes(y.server, 0)
    requires Takes(x.client, |C.InitializeMessage(subaddress).payload|) && Takes(y.client, 0)
    ensures var o := OutlookOf(subaddress, server, c);
            && C.RouteOf(client, subaddress, Seen(first.out.sent, o, x),
                         C.Opens(Wire(second.out.sent, y.down), y.client)) ==
               (if Allocate(client).result < 0 then C.NoSession
                else if o.Ignored? then C.SyncFailed(C.BadReply)
                else if o.Grants? then C.Done(o.slot)
                else C.SyncFailed(C.Eof))
            && (S.CrashedAt(first.log) <==> o.Crashes?)
            && second.table == first.table == (if o.Ignored? then server else Allocate(server).table)
  {
    InitializeAnswer(subaddress, x, server, c);
    AsyncInitializeAnswer(LowestFree(server.taken), y, first.table, c);
    ClientHalf(client, subaddress, OutlookOf(subaddress, server, c), x, y);
  }

  const PLAIN := Line([], [], [], [])

  /** In particular over lines on which every read and write is complete. */
  lemma ConnectOverPlainLines(client: Table, server: Table, c: S.Config, subaddress: Option<Name>)
    requires ValidTable(client) && ValidTable(server) && S.ValidConfig(c) && FitsInt(C.InitializeMessage(subaddress))
    ensures var o := OutlookOf(subaddress, server, c);
            var first := Answer(C.InitializeMessage(subaddress), PLAIN, server, c);
            var second := Answer(C.AsyncInitializeMessage(LowestFree(server.taken)), PLAIN, first.table, c);
            C.RouteOf(client, subaddress, Seen(first.out.sent, o, PLAIN), Seen(second.out.sent, Grants(0), PLAIN)).Done?
            <==> LowestFree(client.taken) < MAX_SESSIONS && o.Grants?
  {
    var first := Answer(C.InitializeMessage(subaddress), PLAIN, server, c);
    var m := C.AsyncInitializeMessage(LowestFree(server.taken));
    S.EmptyPlanCovers([C.InitializeMessage(subaddress)], server, c);
    S.EmptyPlanCovers([m], first.table, c);
    ConnectSucceedsExactly(client, server, c, subaddress, first, Answer(m, PLAIN, first.table, c), PLAIN, PLAIN);
  }

  /** The default client, hs_connect(.., NULL, ..), against a fresh server with one registered name: the
      server crashes without a word, its first slot gone. */
  lemma DefaultDeviceCrashes(name: Name, callbacks: Callbacks)
    ensures var c := S.Config(516, [Registration(name, callbacks)]);
            var run := Answer(C.InitializeMessage(None), PLAIN, EmptyTable(), c);
            S.CrashedAt(run.log) && run.out.sent == [] && run.table.taken[0]
  {
    var c := S.Config(516, [Registration(name, callbacks)]);
    LowestFreeUnique(EmptyTable().taken, 0);
    S.EmptyPlanCovers([C.InitializeMessage(None)], EmptyTable(), c);
    InitializeAnswer(None, PLAIN, EmptyTable(), c);
  }

  // ===== the interleaved exchange is made of these steps =====

  /** A channel of module Handshake and the connection thread of module Server behind it agree on the
      payload pointer. */
  predicate SamePointer(ch: H.Channel, p: Pointer) {
    ch.held <==> p.At?
  }

  function ServerOf(c: S.Config): H.Server
    requires S.ValidConfig(c)
  {
    H.Server(c.calls != [], S.Limit(c))
  }

  /** Once session_new has returned the slot. */
  lemma InterleavedServerReacts(ch: H.Channel, alloc: T.State, seen: seq<H.Announcement>, k: nat, h: Header,
                                p: Pointer, t: Table, c: S.Config)
    requires T.Shaped(alloc) && k < |alloc.pcs| && ValidTable(t) && S.ValidConfig(c) && SamePointer(ch, p)
    requires h.kind == INITIALIZE && h.parameter / TWO_16 == HISLIP_VERSION
    requires ch.pc == H.Allocating && alloc.pcs[k] == T.Returned(L.NewCall, Allocate(t).result)
    ensures var e := S.React(t, h, p, c).effect;
            var r := H.Serve(ch, alloc, seen, ServerOf(c), k);
            && r.crashed == e.Crashed?
            && r.channel == if e.Replied? then ch.(down := ch.down + [e.message], pc := H.Listening)
                            else ch.(pc := H.Stopped)
  {
  }

  /** Up to session_new, or to the answer of any other message. */
  lemma InterleavedServerListens(ch: H.Channel, alloc: T.State, seen: seq<H.Announcement>, k: nat, m: Frame,
                                 p: Pointer, t: Table, c: S.Config)
    requires T.Shaped(alloc) && k < |alloc.pcs| && ValidTable(t) && S.ValidConfig(c) && SamePointer(ch, p)
    requires ch.pc == H.Listening && ch.up != [] && ch.up[0] == m && m.kind != DATA && |m.payload| <= S.Limit(c)
    ensures var q := S.Held(p, HeaderOf(m), m.payload);
            var e := S.React(t, HeaderOf(m), q, c).effect;
            var r := H.Serve(ch, alloc, seen, ServerOf(c), k);
            && SamePointer(r.channel, q) && r.channel.up == ch.up[1..] && !r.crashed
            && if m.kind == INITIALIZE && m.parameter / TWO_16 == HISLIP_VERSION then
                 r.channel.pc == H.Allocating && r.channel.down == ch.down && r.alloc == T.Do(alloc, k, T.BeginNew)
               else
                 && r.alloc == alloc && r.channel.pc == (if e.Stopped? then H.Stopped else H.Listening)
                 && r.channel.down == ch.down + (if e.Replied? then [e.message] else [])
  {
  }

  /** What the thread of module Handshake has done when it is through with the frame in front. `later` is the
      allocator when session_new has returned, if it is called. */
  function Through(ch: H.Channel, alloc: T.State, later: T.State, seen: seq<H.Announcement>, k: nat,
                   server: H.Server): H.Served
    requires T.Shaped(alloc) && T.Shaped(later) && k < |alloc.pcs| == |later.pcs|
  {
    var one := H.Serve(ch, alloc, seen, server, k);
    if one.channel.pc == H.Allocating then H.Serve(one.channel, later, one.announced, server, k) else one
  }

  function Replies(entries: seq<S.Entry>): seq<Message> {
    if entries != [] && entries[0].effect.Replied? then [entries[0].effect.message] else []
  }

  lemma LoopPass(w: Wire, m: Frame, tail: seq<byte>, p: Pointer, t: Table, o: Outbox, c: S.Config)
    requires ValidTable(t) && S.ValidConfig(c) && w.bytes == Encode(m) + tail && S.Answers(w.plan, MSG_HEADER_SIZE)
    requires m.payload != [] && |m.payload| <= S.Limit(c) ==> S.Answers(S.Tail(w.plan), |m.payload|)
    ensures var s := S.StepOf(S.NextTurn(w, S.Limit(c)), p, t, o, c);
            var q := S.Held(p, HeaderOf(m), m.payload);
            var e := S.React(t, HeaderOf(m), q, c).effect;
            if |m.payload| > S.Limit(c) then
              s.entries == [] && s.pointer == p && !s.stop && s.rest.bytes == m.payload + tail
            else
              && s.entries == [S.Entry(HeaderOf(m), m.payload, e)] && s.pointer == q
              && s.stop == S.Ends(e) && s.rest.bytes == tail
  {
    S.FrontTurn(w, m, tail, S.Limit(c));
  }

  /** The threads of module Handshake do with a frame what one pass of the byte loop does, when its reads come
      complete: the same reply, the same end or crash, the same payload pointer, and a frame over the size
      limit dropped, its payload left on the stream. Data is never sent during the exchange. */
  lemma InterleavedServerIsLoop(ch: H.Channel, alloc: T.State, later: T.State, seen: seq<H.Announcement>, k: nat,
                                w: Wire, m: Frame, tail: seq<byte>, p: Pointer, t: Table, o: Outbox, c: S.Config)
    requires T.Shaped(alloc) && T.Shaped(later) && k < |alloc.pcs| == |later.pcs| && ValidTable(t) && S.ValidConfig(c)
    requires SamePointer(ch, p) && ch.pc == H.Listening && ch.up != [] && ch.up[0] == m && m.kind != DATA
    requires later.pcs[k] == T.Returned(L.NewCall, Allocate(t).result)
    requires w.bytes == Encode(m) + tail && S.Answers(w.plan, MSG_HEADER_SIZE)
    requires m.payload != [] && |m.payload| <= S.Limit(c) ==> S.Answers(S.Tail(w.plan), |m.payload|)
    ensures var r := Through(ch, alloc, later, seen, k, ServerOf(c));
            var s := S.StepOf(S.NextTurn(w, S.Limit(c)), p, t, o, c);
            && r.channel.up == ch.up[1..] && r.channel.down == ch.down + Replies(s.entries)
            && SamePointer(r.channel, s.pointer)
            && (r.crashed <==> S.CrashedAt(s.entries)) && (r.channel.pc == H.Stopped <==> s.stop)
            && (r.channel.pc != H.Stopped ==> r.channel.pc == H.Listening)
            && s.rest.bytes == (if |m.payload| > S.Limit(c) then m.payload + tail else tail)
  {
    LoopPass(w, m, tail, p, t, o, c);
    if |m.payload| <= S.Limit(c) {
      var q := S.Held(p, HeaderOf(m), m.payload);
      InterleavedServerListens(ch, alloc, seen, k, m, p, t, c);
      var one := H.Serve(ch, alloc, seen, ServerOf(c), k);
      if m.kind == INITIALIZE && m.parameter / TWO_16 == HISLIP_VERSION {
        InterleavedServerReacts(one.channel, later, one.announced, k, HeaderOf(m), q, t, c);
      }
    }
  }

  /** The clients of module Handshake step like hs_connect: they send its two requests, and on a reply, on
      either channel, go on exactly when the exchange over the encoded reply is answered, with the same
      SessionID. */
  lemma InterleavedClientConnects(l: H.Link, reply: Frame, request: Frame, plan: seq<ReadEvent>, path: seq<WriteEvent>)
    requires Steady(plan) && Acceptable(reply, C.MAX_PAYLOAD_SIZE)
    requires WriteCount(Outbox([], path), Encode(request)) >= 0
    ensures l.client == H.Start && FitsInt(C.InitializeMessage(Some(l.subaddress))) ==>
              H.ClientStep(l).sync.up == l.sync.up + [C.InitializeMessage(Some(l.subaddress))]
    ensures l.client.GotId? ==>
              H.ClientStep(l).async.up == l.async.up + [C.AsyncInitializeMessage(l.client.id)]
    ensures l.client == H.AwaitInitialize && l.sync.down != [] && l.sync.down[0] == reply ==>
              var leg := C.Exchange(C.Opens(Wire(Encode(reply), plan), path), request, INITIALIZE_RESPONSE);
              H.ClientStep(l).client == if leg.Answered? then H.GotId(leg.parameter % TWO_16) else H.GaveUp
    ensures l.client.AwaitAsync? && l.async.down != [] && l.async.down[0] == reply ==>
              var leg := C.Exchange(C.Opens(Wire(Encode(reply), plan), path), request, ASYNC_INITIALIZE_RESPONSE);
              H.ClientStep(l).client == if leg.Answered? then H.Connected(l.client.id) else H.GaveUp
  {
    C.LegOf(reply, plan, path, request, INITIALIZE_RESPONSE);
    C.LegOf(reply, plan, path, request, ASYNC_INITIALIZE_RESPONSE);
  }

  // ===== a sent payload at the server's handler =====

  /** Of what the repaired hs_sync_send writes under a limit the server can take, the handler is given all
      but the last fragment. */
  lemma SentPayloadAtHandler(p: Payload, max: nat, id: u32, path: seq<WriteEvent>, plan: seq<ReadEvent>,
                             q: Pointer, t: Table, o: Outbox, c: S.Config)
    requires ValidTable(t) && S.ValidConfig(c) && S.Handles(c) && p != [] && MSG_HEADER_SIZE < max <= c.sizeMax
    requires var fs := Fragments(p, max - MSG_HEADER_SIZE, id);
             K.Complete(K.Transmit(Outbox([], path), fs), fs) && S.Covers(plan, fs, t, c)
    ensures var fs := Fragments(p, max - MSG_HEADER_SIZE, id);
            var w := Wire(K.Transmit(Outbox([], path), fs).out.sent, plan);
            fs != [] && S.Handled(S.Process(w, q, t, o, c).log) + fs[|fs| - 1].payload == p
  {
    var fs := Fragments(p, max - MSG_HEADER_SIZE, id);
    assert K.Transmit(Outbox([], path), fs).out.sent == EncodeAll(fs) by {
      K.TransmitMeaning(Outbox([], path), fs);
    }
    S.HandlerMissesDataEnd(Wire(EncodeAll(fs), plan), p, max, id, q, t, o, c);
  }
}
