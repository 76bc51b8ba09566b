/** hs_process of src/server.c: the frame loop of one connection thread, as written. */
module Server {
  import opened ByteOrder
  import opened Transport
  import opened Message
  import opened Framing
  import opened Segmentation
  import opened Sessions
  import opened Registry

  /** `sizeMax` is config->message_size_max; `calls` are the registrations made so far. */
  datatype Config = Config(sizeMax: nat, calls: seq<Registration>)

  /** hs_server_init accepts no limit below the header size; lengths pass through `int`. */
  predicate ValidConfig(c: Config) {
    MSG_HEADER_SIZE <= c.sizeMax <= MAX_WIRE_SIZE
  }

  function Limit(c: Config): nat
    requires ValidConfig(c)
  {
    c.sizeMax - MSG_HEADER_SIZE
  }

  // ===== one message =====

  /** `Crashed`: the thread follows a pointer that nothing has set. */
  datatype Effect = Silent | Replied(message: Frame) | CalledSync | Stopped | Crashed

  predicate Ends(e: Effect) {
    e.Stopped? || e.Crashed?
  }

  datatype Reaction = Reaction(table: Table, effect: Effect)

  /** The switch over the message type. `p` is the payload pointer, which hs_process sets to NULL once,
      before its loop. Linking the subaddress follows it if there is a registration to compare with, and
      leaves nothing behind, see module Registry. */
  function React(t: Table, h: Header, p: Pointer, c: Config): (r: Reaction)
    requires ValidTable(t)
    ensures ValidTable(r.table)
  {
    if h.kind == INITIALIZE then
      if h.parameter / TWO_16 != HISLIP_VERSION then Reaction(t, Stopped)
      else
        var a := Allocate(t);
        if a.result < 0 then Reaction(t, Stopped)
        else if p.Null? && c.calls != [] then Reaction(a.table, Crashed)
        else
          var parameter := (HISLIP_VERSION * TWO_16 + a.result) % TWO_32;
          Reaction(a.table, Replied(Message(INITIALIZE_RESPONSE, CC_PREFER_SYNC, parameter, [])))
    else if h.kind == ASYNC_INITIALIZE then
      Reaction(t, Replied(Message(ASYNC_INITIALIZE_RESPONSE, 0, HISLIP_VENDOR_ID, [])))
    else if h.kind == DATA then
      Reaction(t, if c.calls == [] then Crashed
                  else if c.calls[|c.calls| - 1].callbacks.sync then CalledSync
                  else Silent)
    else Reaction(t, Silent)
  }

  /** What the switch is for: an absent subaddress opens the default device (src/client.c:81), and Data
      that nobody has registered for goes nowhere. */
  function Intend(t: Table, h: Header, c: Config): (r: Reaction)
    requires ValidTable(t)
    ensures ValidTable(r.table) && !r.effect.Crashed?
  {
    if h.kind == DATA && c.calls == [] then Reaction(t, Silent) else React(t, h, At([]), c)
  }

  /** An Initialize that will get a slot, with no payload received so far on this connection and a
      registration to compare with; or Data before any registration. */
  predicate Faults(t: Table, h: Header, p: Pointer, c: Config) {
    || (h.kind == INITIALIZE && h.parameter / TWO_16 == HISLIP_VERSION && LowestFree(t.taken) < MAX_SESSIONS &&
        p.Null? && c.calls != [])
    || (h.kind == DATA && c.calls == [])
  }

  /** The switch does what it is for unless one of those two happens. An Initialize of the right version is
      answered, or refused for lack of a slot, exactly when there is no slot, nothing is registered or a
      payload has been received; Data is dealt with exactly when something is registered. */
  lemma ReactExact(t: Table, h: Header, p: Pointer, c: Config)
    requires ValidTable(t)
    ensures React(t, h, p, c) == Intend(t, h, c) <==> !Faults(t, h, p, c)
    ensures React(t, h, p, c).effect.Crashed? <==> Faults(t, h, p, c)
    ensures h.kind == INITIALIZE && h.parameter / TWO_16 == HISLIP_VERSION ==>
              var e := React(t, h, p, c).effect;
              (e.Replied? || (e.Stopped? && Allocate(t).result < 0) <==>
               Allocate(t).result < 0 || c.calls == [] || p.At?)
    ensures h.kind == DATA ==> (React(t, h, p, c).effect.Crashed? <==> c.calls == [])
  {
  }

  lemma RepliesAreEmpty(t: Table, h: Header, p: Pointer, c: Config)
    requires ValidTable(t)
    ensures React(t, h, p, c).effect.Replied? ==> React(t, h, p, c).effect.message.payload == []
  {
  }

  function Emit(o: Outbox, e: Effect): Outbox {
    if e.Replied? then AfterWrite(o, Encode(e.message)) else o
  }

  /** A dispatched message: its header, the payload bytes that were read for it, and what it caused. */
  datatype Entry = Entry(header: Header, got: seq<byte>, effect: Effect)

  // ===== the byte loop =====

  /** What one pass of the loop takes from the wire: the end of the stream, bytes that are dropped, or a
      message. */
  datatype Turn = Ended(rest: Wire) | Skipped(rest: Wire) | Taken(header: Header, got: seq<byte>, rest: Wire)

  function NextTurn(w: Wire, limit: nat): Turn {
    var n := ReadCount(w, MSG_HEADER_SIZE);
    var after := AfterRead(w, MSG_HEADER_SIZE);
    if n == 0 then Ended(after)
    else if n < MSG_HEADER_SIZE then Skipped(after)
    else PayloadTurn(DecodeHeader(w.bytes[..MSG_HEADER_SIZE]), after, limit)
  }

  function PayloadTurn(h: Header, w: Wire, limit: nat): Turn {
    if h.prologue != MSG_HEADER_PROLOGUE then Skipped(w)
    else if h.payloadLength == 0 then Taken(h, [], w)
    else if h.payloadLength > limit then Skipped(w)
    else
      var n := ReadCount(w, h.payloadLength);
      if n == 0 then Ended(AfterRead(w, h.payloadLength))
      else Taken(h, w.bytes[..Max0(n)], AfterRead(w, h.payloadLength))
  }

  function Measure(w: Wire): nat {
    |w.bytes| + |w.plan|
  }

  /** Progress: a pass that goes on has used up bytes of the stream or an event of the plan; at least one
      byte if its read returned anything, at least 16 once a header was complete. */
  lemma TurnProgress(w: Wire, limit: nat)
    ensures var r := NextTurn(w, limit).rest;
            && |r.bytes| <= |w.bytes|
            && (ReadCount(w, MSG_HEADER_SIZE) > 0 ==> |r.bytes| < |w.bytes|)
            && (ReadCount(w, MSG_HEADER_SIZE) == MSG_HEADER_SIZE ==> |r.bytes| <= |w.bytes| - MSG_HEADER_SIZE)
            && (!NextTurn(w, limit).Ended? ==> Measure(r) < Measure(w))
  {
  }

  /** The payload pointer once a message is there. */
  function Held(p: Pointer, h: Header, got: seq<byte>): Pointer {
    if h.payloadLength == 0 then p else At(got)
  }

  /** One pass of the loop: whether it was the last, the message it dispatched, if any, and the state behind it. */
  datatype Step = Step(stop: bool, entries: seq<Entry>, pointer: Pointer, table: Table, out: Outbox, rest: Wire)

  function StepOf(turn: Turn, p: Pointer, t: Table, o: Outbox, c: Config): (s: Step)
    requires ValidTable(t)
    ensures ValidTable(s.table) && s.rest == turn.rest && (turn.Ended? ==> s.stop)
  {
    match turn
    case Ended(rest) => Step(true, [], p, t, o, rest)
    case Skipped(rest) => Step(false, [], p, t, o, rest)
    case Taken(h, got, rest) =>
      var r := React(t, h, Held(p, h, got), c);
      Step(Ends(r.effect), [Entry(h, got, r.effect)], Held(p, h, got), r.table, Emit(o, r.effect), rest)
  }

  datatype Run = Run(log: seq<Entry>, table: Table, out: Outbox, rest: Wire)

  /** The whole run of a connection thread until it closes its socket or crashes. */
  function Process(w: Wire, p: Pointer, t: Table, o: Outbox, c: Config): (r: Run)
    requires ValidTable(t) && ValidConfig(c)
    ensures ValidTable(r.table)
    decreases Measure(w)
  {
    TurnProgress(w, Limit(c));
    var s := StepOf(NextTurn(w, Limit(c)), p, t, o, c);
    if s.stop then Run(s.entries, s.table, s.out, s.rest)
    else Logged(s.entries, Process(s.rest, s.pointer, s.table, s.out, c))
  }

  function Logged(front: seq<Entry>, r: Run): Run {
    if front == [] then r else r.(log := front + r.log)
  }

  lemma LoggedTwice(a: seq<Entry>, b: seq<Entry>, r: Run)
    ensures Logged(a, Logged(b, r)) == Logged(a + b, r)
  {
    assert a + (b + r.log) == a + b + r.log;
    assert b == [] ==> a + b == a;
    assert a == [] ==> a + b == b;
  }

  lemma ProcessSkips(w: Wire, p: Pointer, t: Table, o: Outbox, c: Config)
    requires ValidTable(t) && ValidConfig(c) && NextTurn(w, Limit(c)).Skipped?
    ensures Process(w, p, t, o, c) == Process(NextTurn(w, Limit(c)).rest, p, t, o, c)
  {
  }

  lemma ProcessTakes(w: Wire, p: Pointer, t: Table, o: Outbox, c: Config)
    requires ValidTable(t) && ValidConfig(c) && NextTurn(w, Limit(c)).Taken?
    ensures var turn := NextTurn(w, Limit(c));
            var q := Held(p, turn.header, turn.got);
            var r := React(t, turn.header, q, c);
            var entry := Entry(turn.header, turn.got, r.effect);
            Process(w, p, t, o, c) ==
            if Ends(r.effect) then Run([entry], r.table, o, turn.rest)
            else Logged([entry], Process(turn.rest, q, r.table, Emit(o, r.effect), c))
  {
  }

  /** The body of the loop up to the switch. `verdict` is 0 for return, 1 for continue, 2 for a message. */
  method ReceiveTurn(socket: Socket, limit: nat) returns (verdict: int, header: Header, got: seq<byte>)
    requires limit <= MAX_WIRE_SIZE
    modifies socket`wire
    ensures match NextTurn(old(socket.wire), limit)
            case Ended(rest) => verdict == 0 && socket.wire == rest
            case Skipped(rest) => verdict == 1 && socket.wire == rest
            case Taken(h, bytes, rest) => verdict == 2 && socket.wire == rest && header == h && got == bytes
  {
    got := [];
    var raw := new byte[MSG_HEADER_SIZE];
    header := Header(0, 0, 0, 0, 0);
    var n := socket.Read(raw, 0, MSG_HEADER_SIZE);
    if n == 0 {
      return 0, header, got;
    }
    if n < MSG_HEADER_SIZE {
      return 1, header, got;
    }
    assert raw[..] == old(socket.wire).bytes[..MSG_HEADER_SIZE];
    header := HeaderFromWire(raw[..]);
    if header.prologue != MSG_HEADER_PROLOGUE {
      return 1, header, got;
    }
    if header.payloadLength > 0 {
      if header.payloadLength > limit {
        return 1, header, got;
      }
      var payload := new byte[header.payloadLength];
      n := socket.Read(payload, 0, header.payloadLength);
      if n == 0 {
        return 0, header, got;
      }
      got := if n > 0 then payload[..n] else [];
    }
    verdict := 2;
  }

  /** The switch, on the server's session table and registry and the connection's socket and payload
      pointer; `beyond` is what lies behind the payload in memory. */
  method Dispatch(socket: Socket, table: SessionTable, server: HsServer, header: Header, payload: Pointer,
                  beyond: Memory, ghost c: Config)
    returns (effect: Effect)
    requires table.Valid() && server.Valid() && c.calls == server.calls
    modifies socket`out, table`next, table.slots
    ensures var r := React(old(table.View()), header, payload, c);
            effect == r.effect && table.View() == r.table && socket.out == Emit(old(socket.out), effect)
  {
    effect := Silent;
    if header.kind == INITIALIZE {
      if header.parameter / TWO_16 != HISLIP_VERSION {
        return Stopped;
      }
      var sessionId := table.SessionNew();
      if sessionId < 0 {
        return Stopped;
      }
      var linked := server.SubaddressLink(payload, beyond);
      if linked == None {
        return Crashed;
      }
      var m := Message(INITIALIZE_RESPONSE, CC_PREFER_SYNC, (HISLIP_VERSION * TWO_16 + sessionId) % TWO_32, []);
      Reply(socket, m);
      effect := Replied(m);
    } else if header.kind == ASYNC_INITIALIZE {
      var m := Message(ASYNC_INITIALIZE_RESPONSE, 0, HISLIP_VENDOR_ID, []);
      Reply(socket, m);
      effect := Replied(m);
    } else if header.kind == DATA {
      var callbacks := server.SyncHandler();
      if callbacks == None {
        return Crashed;
      }
      if callbacks.value.sync {
        effect := CalledSync;
      }
    }
  }

  method Reply(socket: Socket, m: Frame)
    requires m.payload == []
    modifies socket`out
    ensures socket.out == AfterWrite(old(socket.out), Encode(m))
  {
    var message := MsgCreate(m.kind, m.control, m.parameter, 0, []);
    var _ := MsgSend(socket, message, m);
  }

  predicate CrashedAt(entries: seq<Entry>) {
    entries != [] && entries[|entries| - 1].effect.Crashed?
  }

  /** One pass of the loop; `entries` records the message it dispatched, if any. A crash does not reach the
      closing of the socket. */
  method ProcessTurn(socket: Socket, table: SessionTable, server: HsServer, payload: Pointer, beyond: Memory, c: Config)
    returns (stop: bool, entries: seq<Entry>, pointer: Pointer)
    requires table.Valid() && server.Valid() && c.calls == server.calls && ValidConfig(c)
    modifies socket, table`next, table.slots
    ensures Step(stop, entries, pointer, table.View(), socket.out, socket.wire) ==
            StepOf(NextTurn(old(socket.wire), Limit(c)), payload, old(table.View()), old(socket.out), c)
    ensures socket.closed == old(socket.closed) + if stop && !CrashedAt(entries) then 1 else 0
  {
    var verdict, header, got := ReceiveTurn(socket, Limit(c));
    entries, pointer := [], payload;
    stop := verdict == 0;
    var effect := Silent;
    if verdict == 2 {
      pointer := if header.payloadLength == 0 then payload else At(got);
      effect := Dispatch(socket, table, server, header, pointer, beyond, c);
      entries := [Entry(header, got, effect)];
      stop := Ends(effect);
    }
    if stop && !effect.Crashed? {
      socket.Disconnect();
    }
  }

  lemma CrashIsLast(a: seq<Entry>, b: seq<Entry>)
    ensures CrashedAt(a + b) <==> if b == [] then CrashedAt(a) else CrashedAt(b)
  {
    assert b == [] ==> a + b == a;
  }

  /** What a pass does to a run of which `log` has been dispatched. */
  lemma PassAdvances(goal: Run, log: seq<Entry>, w: Wire, p: Pointer, t: Table, o: Outbox, c: Config)
    requires ValidTable(t) && ValidConfig(c) && goal == Logged(log, Process(w, p, t, o, c))
    ensures var s := StepOf(NextTurn(w, Limit(c)), p, t, o, c);
            goal == if s.stop then Run(log + s.entries, s.table, s.out, s.rest)
                    else Logged(log + s.entries, Process(s.rest, s.pointer, s.table, s.out, c))
  {
    var s := StepOf(NextTurn(w, Limit(c)), p, t, o, c);
    assert log == [] ==> log + s.entries == s.entries;
    if !s.stop {
      LoggedTwice(log, s.entries, Process(s.rest, s.pointer, s.table, s.out, c));
    }
  }

  /** hs_process. `log` records what was dispatched; `beyond` is what lies behind the payload buffer when
      message n of the connection is dispatched. */
  method HsProcess(socket: Socket, table: SessionTable, server: HsServer, beyond: nat -> Memory, c: Config)
    returns (log: seq<Entry>)
    requires table.Valid() && server.Valid() && c.calls == server.calls && ValidConfig(c)
    modifies socket, table`next, table.slots
    ensures Process(old(socket.wire), Null, old(table.View()), old(socket.out), c) ==
            Run(log, table.View(), socket.out, socket.wire)
    ensures socket.closed == old(socket.closed) + if CrashedAt(log) then 0 else 1
  {
    log := [];
    var stop, payload := false, Null;
    ghost var goal := Process(socket.wire, payload, table.View(), socket.out, c);
    while !stop
      invariant if stop then goal == Run(log, table.View(), socket.out, socket.wire)
                else goal == Logged(log, Process(socket.wire, payload, table.View(), socket.out, c))
      invariant socket.closed == old(socket.closed) + if stop && !CrashedAt(log) then 1 else 0
      invariant !stop ==> !CrashedAt(log)
      decreases !stop, Measure(socket.wire)
    {
      PassAdvances(goal, log, socket.wire, payload, table.View(), socket.out, c);
      TurnProgress(socket.wire, Limit(c));
      var entries;
      stop, entries, payload := ProcessTurn(socket, table, server, payload, beyond(|log|), c);
      CrashIsLast(log, entries);
      log := log + entries;
    }
  }

  // ===== what the loop refines: a server of whole frames =====

  /** Frames dispatched, resulting table and stream, and the frames behind one that stops the server. */
  datatype Service = Service(log: seq<Entry>, table: Table, out: Outbox, left: seq<Frame>)

  function Serve(ms: seq<Frame>, t: Table, o: Outbox, c: Config): Service
    requires ValidTable(t)
    decreases |ms|
  {
    if ms == [] then Service([], t, o, [])
    else
      var r := Intend(t, HeaderOf(ms[0]), c);
      var entry := Entry(HeaderOf(ms[0]), ms[0].payload, r.effect);
      if r.effect.Stopped? then Service([entry], r.table, o, ms[1..])
      else
        var others := Serve(ms[1..], r.table, Emit(o, r.effect), c);
        others.(log := [entry] + others.log)
  }

  function Tail(plan: seq<ReadEvent>): seq<ReadEvent> {
    if plan == [] then [] else plan[1..]
  }

  /** The next read gets all of `want` bytes if the stream has them. */
  predicate Answers(plan: seq<ReadEvent>, want: nat) {
    plan == [] || (plan[0].ReadAtMost? && plan[0].limit >= want)
  }

  /** The plan suits the frames: a header read may fail and be repeated, but neither a header read nor a
      payload read may come short. */
  predicate Covers(plan: seq<ReadEvent>, ms: seq<Frame>, t: Table, c: Config)
    requires ValidTable(t)
    decreases |ms|, |plan|
  {
    if ms == [] then true
    else if plan != [] && plan[0].ReadFails? then Covers(plan[1..], ms, t, c)
    else
      var afterHeader := Tail(plan);
      var r := Intend(t, HeaderOf(ms[0]), c);
      && Answers(plan, MSG_HEADER_SIZE)
      && (ms[0].payload != [] ==> Answers(afterHeader, |ms[0].payload|))
      && (r.effect.Stopped? ||
          Covers(if ms[0].payload != [] then Tail(afterHeader) else afterHeader, ms[1..], r.table, c))
  }

  /** The frames suit the server: up to the one that stops it, each is within the size limit and none makes
      it follow an unset pointer. */
  predicate Sound(ms: seq<Frame>, p: Pointer, t: Table, c: Config)
    requires ValidTable(t) && ValidConfig(c)
    decreases |ms|
  {
    ms == [] ||
    var q := Held(p, HeaderOf(ms[0]), ms[0].payload);
    var r := Intend(t, HeaderOf(ms[0]), c);
    && |ms[0].payload| <= Limit(c)
    && !Faults(t, HeaderOf(ms[0]), q, c)
    && (r.effect.Stopped? || Sound(ms[1..], q, r.table, c))
  }

  /** The run dispatched exactly the served frames, with their payloads, and stands at a frame boundary. */
  predicate Faithful(r: Run, s: Service) {
    r.log == s.log && r.table == s.table && r.out == s.out && r.rest.bytes == EncodeAll(s.left)
  }

  function Weight(log: seq<Entry>): nat {
    if log == [] then 0 else MSG_HEADER_SIZE + |log[0].got| + Weight(log[1..])
  }

  lemma WeightCons(e: Entry, log: seq<Entry>)
    ensures Weight([e] + log) == MSG_HEADER_SIZE + |e.got| + Weight(log)
  {
    assert ([e] + log)[1..] == log;
  }

  /** Conservation of bytes: what was dispatched and what is left were on the stream. */
  lemma {:induction false} ProcessWeight(w: Wire, p: Pointer, t: Table, o: Outbox, c: Config)
    requires ValidTable(t) && ValidConfig(c)
    ensures var r := Process(w, p, t, o, c); Weight(r.log) + |r.rest.bytes| <= |w.bytes|
    decreases Measure(w)
  {
    TurnProgress(w, Limit(c));
    TurnWeight(w, Limit(c));
    match NextTurn(w, Limit(c))
    case Ended(rest) =>
    case Skipped(rest) =>
      ProcessSkips(w, p, t, o, c);
      ProcessWeight(rest, p, t, o, c);
    case Taken(h, got, rest) =>
      var q := Held(p, h, got);
      var r := React(t, h, q, c);
      var entry := Entry(h, got, r.effect);
      ProcessTakes(w, p, t, o, c);
      if Ends(r.effect) {
        WeightCons(entry, []);
      } else {
        ProcessWeight(rest, q, r.table, Emit(o, r.effect), c);
        WeightCons(entry, Process(rest, q, r.table, Emit(o, r.effect), c).log);
      }
  }

  lemma TurnWeight(w: Wire, limit: nat)
    ensures var turn := NextTurn(w, limit);
            (if turn.Taken? then MSG_HEADER_SIZE + |turn.got| else 0) + |turn.rest.bytes| <= |w.bytes|
  {
  }

  /** In the frame server nothing is lost. */
  lemma {:induction false} ServeWeight(ms: seq<Frame>, t: Table, o: Outbox, c: Config)
    requires ValidTable(t)
    ensures var s := Serve(ms, t, o, c); Weight(s.log) + |EncodeAll(s.left)| == |EncodeAll(ms)|
    decreases |ms|
  {
    if ms != [] {
      var r := Intend(t, HeaderOf(ms[0]), c);
      var entry := Entry(HeaderOf(ms[0]), ms[0].payload, r.effect);
      if r.effect.Stopped? {
        WeightCons(entry, []);
      } else {
        ServeWeight(ms[1..], r.table, Emit(o, r.effect), c);
        WeightCons(entry, Serve(ms[1..], r.table, Emit(o, r.effect), c).log);
      }
    }
  }

  lemma {:induction false} EmptyStream(w: Wire, p: Pointer, t: Table, o: Outbox, c: Config)
    requires ValidTable(t) && ValidConfig(c) && w.bytes == []
    ensures var r := Process(w, p, t, o, c); r == Run([], t, o, r.rest) && r.rest.bytes == []
    decreases |w.plan|
  {
    var after := AfterRead(w, MSG_HEADER_SIZE);
    if ReadCount(w, MSG_HEADER_SIZE) == 0 {
      assert NextTurn(w, Limit(c)) == Ended(after);
    } else {
      assert NextTurn(w, Limit(c)) == Skipped(after);
      ProcessSkips(w, p, t, o, c);
      EmptyStream(after, p, t, o, c);
    }
  }

  /** A read is complete exactly when the plan answers it, if the stream has the bytes. */
  lemma CompleteRead(w: Wire, want: positive)
    requires want <= |w.bytes|
    ensures ReadCount(w, want) == want <==> Answers(w.plan, want)
    ensures ReadCount(w, want) != 0
    ensures AfterRead(w, want).plan == Tail(w.plan)
  {
  }

  /** Reading the frame at the front of the stream. */
  lemma FrontTurn(w: Wire, m: Frame, tail: seq<byte>, limit: nat)
    requires w.bytes == Encode(m) + tail && Answers(w.plan, MSG_HEADER_SIZE)
    ensures var turn := NextTurn(w, limit);
            if |m.payload| > limit then turn.Skipped? && turn.rest.bytes == m.payload + tail
            else
              && turn.Taken? && turn.header == HeaderOf(m)
              && (turn.got == m.payload <==> m.payload == [] || Answers(Tail(w.plan), |m.payload|))
              && (turn.got == m.payload ==>
                    turn.rest.bytes == tail &&
                    turn.rest.plan == if m.payload != [] then Tail(Tail(w.plan)) else Tail(w.plan))
  {
    CompleteRead(w, MSG_HEADER_SIZE);
    var body := AfterRead(w, MSG_HEADER_SIZE);
    assert w.bytes[..MSG_HEADER_SIZE] == EncodeHeader(HeaderOf(m));
    assert body.bytes == m.payload + tail;
    DecodeEncodeHeader(HeaderOf(m));
    if m.payload != [] {
      CompleteRead(body, |m.payload|);
      assert body.bytes[..|m.payload|] == m.payload && body.bytes[|m.payload|..] == tail;
    }
  }

  /** What a pass drops is lost for good. */
  lemma SkippingLoses(w: Wire, ms: seq<Frame>, p: Pointer, t: Table, o: Outbox, c: Config)
    requires ValidTable(t) && ValidConfig(c) && w.bytes == EncodeAll(ms)
    requires var turn := NextTurn(w, Limit(c)); turn.Skipped? && |turn.rest.bytes| < |w.bytes|
    ensures !Faithful(Process(w, p, t, o, c), Serve(ms, t, o, c))
  {
    ProcessSkips(w, p, t, o, c);
    ProcessWeight(NextTurn(w, Limit(c)).rest, p, t, o, c);
    ServeWeight(ms, t, o, c);
  }

  /** Frame by frame: the run is faithful if its first message came out whole and the rest is faithful. */
  lemma FaithfulCons(e: Entry, f: Entry, r: Run, s: Service)
    ensures Faithful(Logged([e], r), s.(log := [f] + s.log)) <==> e == f && Faithful(r, s)
  {
    assert ([e] + r.log)[0] == e && ([f] + s.log)[0] == f;
    assert ([e] + r.log)[1..] == r.log && ([f] + s.log)[1..] == s.log;
  }

  /** On a stream of frames the loop as written dispatches each frame once, in order, with its own payload
      and the reaction it is meant to get, standing at a frame boundary, until a frame stops it - exactly
      when no header read and no payload read comes short, no payload read fails, and up to that frame
      each is within the size limit and none makes the thread follow an unset pointer. */
  lemma {:induction false} FidelityExact(w: Wire, ms: seq<Frame>, p: Pointer, t: Table, o: Outbox, c: Config)
    requires ValidTable(t) && ValidConfig(c) && w.bytes == EncodeAll(ms)
    ensures Faithful(Process(w, p, t, o, c), Serve(ms, t, o, c)) <==> Covers(w.plan, ms, t, c) && Sound(ms, p, t, c)
    decreases |ms|, |w.plan|
  {
    if ms == [] {
      EmptyStream(w, p, t, o, c);
    } else if w.plan != [] && w.plan[0].ReadFails? {
      var after := AfterRead(w, MSG_HEADER_SIZE);
      assert NextTurn(w, Limit(c)) == Skipped(after);
      ProcessSkips(w, p, t, o, c);
      FidelityExact(after, ms, p, t, o, c);
    } else {
      CompleteRead(w, MSG_HEADER_SIZE);
      if !Answers(w.plan, MSG_HEADER_SIZE) {
        assert NextTurn(w, Limit(c)) == Skipped(AfterRead(w, MSG_HEADER_SIZE));
        SkippingLoses(w, ms, p, t, o, c);
      } else {
        FidelityOfFrame(w, ms, p, t, o, c);
      }
    }
  }

  lemma {:induction false} FidelityOfFrame(w: Wire, ms: seq<Frame>, p: Pointer, t: Table, o: Outbox, c: Config)
    requires ValidTable(t) && ValidConfig(c) && ms != [] && w.bytes == EncodeAll(ms)
    requires Answers(w.plan, MSG_HEADER_SIZE)
    ensures Faithful(Process(w, p, t, o, c), Serve(ms, t, o, c)) <==> Covers(w.plan, ms, t, c) && Sound(ms, p, t, c)
    decreases |ms|, |w.plan|, 1
  {
    var m, tail := ms[0], ms[1..];
    FrontTurn(w, m, EncodeAll(tail), Limit(c));
    var turn := NextTurn(w, Limit(c));
    if turn.Skipped? {
      assert |turn.rest.bytes| < |w.bytes|;
      SkippingLoses(w, ms, p, t, o, c);
    } else {
      FidelityOfTaken(w, ms, p, t, o, c);
    }
  }

  lemma {:induction false} FidelityOfTaken(w: Wire, ms: seq<Frame>, p: Pointer, t: Table, o: Outbox, c: Config)
    requires ValidTable(t) && ValidConfig(c) && ms != [] && w.bytes == EncodeAll(ms)
    requires Answers(w.plan, MSG_HEADER_SIZE) && |ms[0].payload| <= Limit(c)
    ensures Faithful(Process(w, p, t, o, c), Serve(ms, t, o, c)) <==> Covers(w.plan, ms, t, c) && Sound(ms, p, t, c)
    decreases |ms|, |w.plan|, 0
  {
    var m, tail := ms[0], ms[1..];
    FrontTurn(w, m, EncodeAll(tail), Limit(c));
    var turn := NextTurn(w, Limit(c));
    var h, q := HeaderOf(m), Held(p, HeaderOf(m), turn.got);
    var r, i := React(t, h, q, c), Intend(t, h, c);
    ReactExact(t, h, q, c);
    var e, f := Entry(h, turn.got, r.effect), Entry(h, m.payload, i.effect);
    ProcessTakes(w, p, t, o, c);
    if Faults(t, h, q, c) {
      FaultDiffers(e, f, Process(w, p, t, o, c), Serve(ms, t, o, c));
    } else if i.effect.Stopped? {
      assert e == f <==> turn.got == m.payload;
    } else {
      var o' := Emit(o, r.effect);
      FaithfulCons(e, f, Process(turn.rest, q, r.table, o', c), Serve(tail, r.table, o', c));
      if turn.got == m.payload {
        FidelityExact(turn.rest, tail, q, r.table, o', c);
      }
    }
  }

  lemma FaultDiffers(e: Entry, f: Entry, r: Run, s: Service)
    requires r.log == [e] && s.log != [] && s.log[0] == f && e.effect != f.effect
    ensures !Faithful(r, s)
  {
  }

  /** With complete reads the loop is the server of whole frames on exactly the sound streams. */
  lemma FidelityWithFullReads(ms: seq<Frame>, p: Pointer, t: Table, o: Outbox, c: Config)
    requires ValidTable(t) && ValidConfig(c)
    ensures Faithful(Process(Wire(EncodeAll(ms), []), p, t, o, c), Serve(ms, t, o, c)) <==> Sound(ms, p, t, c)
  {
    EmptyPlanCovers(ms, t, c);
    FidelityExact(Wire(EncodeAll(ms), []), ms, p, t, o, c);
  }

  lemma {:induction false} EmptyPlanCovers(ms: seq<Frame>, t: Table, c: Config)
    requires ValidTable(t)
    ensures Covers([], ms, t, c)
    decreases |ms|
  {
    if ms != [] {
      EmptyPlanCovers(ms[1..], Intend(t, HeaderOf(ms[0]), c).table, c);
    }
  }

  /** Reading and dispatching the frame at the front of the stream. */
  lemma {:induction false} DispatchesFront(w: Wire, m: Frame, tail: seq<byte>, p: Pointer, t: Table, o: Outbox,
                                           c: Config)
    returns (rest: Wire)
    requires ValidTable(t) && ValidConfig(c) && w.bytes == Encode(m) + tail && |m.payload| <= Limit(c)
    requires Covers(w.plan, [m], t, c)
    ensures rest.bytes == tail
    ensures var q := Held(p, HeaderOf(m), m.payload);
            var r := React(t, HeaderOf(m), q, c);
            var entry := Entry(HeaderOf(m), m.payload, r.effect);
            Process(w, p, t, o, c) ==
            if Ends(r.effect) then Run([entry], r.table, o, rest)
            else Logged([entry], Process(rest, q, r.table, Emit(o, r.effect), c))
    decreases |w.plan|
  {
    if w.plan != [] && w.plan[0].ReadFails? {
      var after := AfterRead(w, MSG_HEADER_SIZE);
      assert NextTurn(w, Limit(c)) == Skipped(after);
      ProcessSkips(w, p, t, o, c);
      rest := DispatchesFront(after, m, tail, p, t, o, c);
    } else {
      FrontTurn(w, m, tail, Limit(c));
      ProcessTakes(w, p, t, o, c);
      rest := NextTurn(w, Limit(c)).rest;
    }
  }

  /** The run of a thread that is sent one frame and then nothing more. */
  lemma SoleFrame(w: Wire, m: Frame, p: Pointer, t: Table, o: Outbox, c: Config)
    requires ValidTable(t) && ValidConfig(c) && w.bytes == Encode(m) && |m.payload| <= Limit(c)
    requires Covers(w.plan, [m], t, c)
    ensures var r := React(t, HeaderOf(m), Held(p, HeaderOf(m), m.payload), c);
            var run := Process(w, p, t, o, c);
            run.log == [Entry(HeaderOf(m), m.payload, r.effect)] && run.table == r.table && run.out == Emit(o, r.effect)
  {
    var q := Held(p, HeaderOf(m), m.payload);
    var r := React(t, HeaderOf(m), q, c);
    assert Encode(m) + [] == Encode(m);
    var rest := DispatchesFront(w, m, [], p, t, o, c);
    EmptyStream(rest, q, r.table, Emit(o, r.effect), c);
  }

  /** A frame that faults ends the run: nothing is written for it, and what is behind it stays unread. */
  lemma FaultEndsRun(w: Wire, m: Frame, tail: seq<byte>, p: Pointer, t: Table, o: Outbox, c: Config)
    requires ValidTable(t) && ValidConfig(c) && w.bytes == Encode(m) + tail && |m.payload| <= Limit(c)
    requires Covers(w.plan, [m], t, c) && Faults(t, HeaderOf(m), Held(p, HeaderOf(m), m.payload), c)
    ensures var run := Process(w, p, t, o, c);
            CrashedAt(run.log) && |run.log| == 1 && run.out == o && run.rest.bytes == tail
  {
    var _ := DispatchesFront(w, m, tail, p, t, o, c);
    ReactExact(t, HeaderOf(m), Held(p, HeaderOf(m), m.payload), c);
  }

  // ===== what each message causes =====

  /** An Initialize of version 1.0, which stands in the upper half of the parameter. */
  predicate OpensSession(e: Entry) {
    e.header.kind == 0 && e.header.parameter / 0x1_0000 == 0x0100
  }

  predicate HasRoom(t: Table) {
    false in t.taken
  }

  /** What a dispatched message causes, by its kind: 0 is Initialize, 6 Data, 17 AsyncInitialize. `unset` says
      that the connection has had no payload up to this message. */
  predicate Causes(t: Table, unset: bool, e: Entry, c: Config)
    requires ValidTable(t)
  {
    && (e.effect.CalledSync? <==> e.header.kind == 6 && c.calls != [] && c.calls[|c.calls| - 1].callbacks.sync)
    && (e.effect.Stopped? <==> e.header.kind == 0 && !(OpensSession(e) && HasRoom(t)))
    && (e.effect.Crashed? <==>
        (OpensSession(e) && HasRoom(t) && unset && c.calls != []) || (e.header.kind == 6 && c.calls == []))
    && (e.effect.Replied? <==>
        e.header.kind == 17 || (OpensSession(e) && HasRoom(t) && !(unset && c.calls != [])))
    && (e.effect.Replied? ==>
          e.effect.message == if e.header.kind == 17 then Message(18, 0, 42, [])
                              else Message(1, 0, 0x0100_0000 + LowestFree(t.taken), []))
    && (e.header.kind !in {0, 6, 17} ==> e.effect.Silent?)
  }

  /** The table after some dispatched messages: those that open a session have taken a slot. */
  function TableAfter(t: Table, log: seq<Entry>): (r: Table)
    requires ValidTable(t)
    ensures ValidTable(r)
    decreases |log|
  {
    if log == [] then t
    else TableAfter(if OpensSession(log[0]) && HasRoom(t) then Allocate(t).table else t, log[1..])
  }

  /** The stream after some dispatched messages: the replies, one write each. */
  function OutAfter(o: Outbox, log: seq<Entry>): Outbox
    decreases |log|
  {
    if log == [] then o
    else OutAfter(if log[0].effect.Replied? then AfterWrite(o, Encode(log[0].effect.message)) else o, log[1..])
  }

  /** None of these messages had a payload, and there was none before. */
  predicate NoPayload(p: Pointer, log: seq<Entry>) {
    p.Null? && forall i :: 0 <= i < |log| ==> log[i].header.payloadLength == 0
  }

  lemma AfterCons(e: Entry, log: seq<Entry>, t: Table, o: Outbox)
    requires ValidTable(t)
    ensures TableAfter(t, [e] + log) ==
            TableAfter(if OpensSession(e) && HasRoom(t) then Allocate(t).table else t, log)
    ensures OutAfter(o, [e] + log) ==
            OutAfter(if e.effect.Replied? then AfterWrite(o, Encode(e.effect.message)) else o, log)
  {
    assert ([e] + log)[0] == e && ([e] + log)[1..] == log;
  }

  lemma RoomIsFreeSlot(t: Table)
    requires ValidTable(t)
    ensures HasRoom(t) <==> LowestFree(t.taken) < 256
    ensures HasRoom(t) <==> Allocate(t).result >= 0
  {
    if HasRoom(t) {
      var j :| 0 <= j < |t.taken| && !t.taken[j];
    }
  }

  lemma ReactCauses(t: Table, h: Header, got: seq<byte>, q: Pointer, c: Config)
    requires ValidTable(t)
    ensures var r := React(t, h, q, c);
            var e := Entry(h, got, r.effect);
            && Causes(t, q.Null?, e, c)
            && r.table == if OpensSession(e) && HasRoom(t) then Allocate(t).table else t
  {
    RoomIsFreeSlot(t);
  }

  /** Message i of a run is settled by what was before it, and only the last may end the run. */
  predicate Settled(t: Table, p: Pointer, log: seq<Entry>, i: nat, c: Config)
    requires ValidTable(t) && i < |log|
  {
    Causes(TableAfter(t, log[..i]), NoPayload(p, log[..i + 1]), log[i], c) && (i < |log| - 1 ==> !Ends(log[i].effect))
  }

  /** Every message that a run dispatches, of whatever frames or rubbish the stream consists and however the
      reads go: what it causes is settled by its kind, the slots taken and the payloads seen up to it. */
  lemma {:induction false} EveryMessage(w: Wire, p: Pointer, t: Table, o: Outbox, c: Config, i: nat)
    requires ValidTable(t) && ValidConfig(c) && i < |Process(w, p, t, o, c).log|
    ensures Settled(t, p, Process(w, p, t, o, c).log, i, c)
    decreases Measure(w)
  {
    TurnProgress(w, Limit(c));
    match NextTurn(w, Limit(c))
    case Ended(rest) =>
      assert false;
    case Skipped(rest) =>
      ProcessSkips(w, p, t, o, c);
      EveryMessage(rest, p, t, o, c, i);
    case Taken(h, got, rest) =>
      var q := Held(p, h, got);
      var r := React(t, h, q, c);
      var e := Entry(h, got, r.effect);
      ProcessTakes(w, p, t, o, c);
      ReactCauses(t, h, got, q, c);
      if Ends(r.effect) {
        FirstSettled(t, p, e, [], c);
      } else {
        var others := Process(rest, q, r.table, Emit(o, r.effect), c).log;
        if i == 0 {
          FirstSettled(t, p, e, others, c);
        } else {
          EveryMessage(rest, q, r.table, Emit(o, r.effect), c, i - 1);
          LaterSettled(t, p, e, others, i, c);
        }
      }
  }

  lemma FirstSettled(t: Table, p: Pointer, e: Entry, others: seq<Entry>, c: Config)
    requires ValidTable(t) && Causes(t, Held(p, e.header, e.got).Null?, e, c) && (others != [] ==> !Ends(e.effect))
    ensures Settled(t, p, [e] + others, 0, c)
  {
    assert ([e] + others)[..1] == [e];
  }

  lemma LaterSettled(t: Table, p: Pointer, e: Entry, others: seq<Entry>, i: nat, c: Config)
    requires ValidTable(t) && 0 < i <= |others|
    requires Settled(if OpensSession(e) && HasRoom(t) then Allocate(t).table else t, Held(p, e.header, e.got), others,
                     i - 1, c)
    ensures Settled(t, p, [e] + others, i, c)
  {
    var log := [e] + others;
    assert log[..i] == [e] + others[..i - 1] && log[..i + 1] == [e] + others[..i];
    AfterCons(e, others[..i - 1], t, Outbox([], []));
    NoPayloadCons(p, e, others[..i]);
  }

  lemma NoPayloadCons(p: Pointer, e: Entry, log: seq<Entry>)
    ensures NoPayload(p, [e] + log) <==> NoPayload(Held(p, e.header, e.got), log)
  {
    var all := [e] + log;
    assert all[0] == e && forall i :: 0 <= i < |log| ==> log[i] == all[i + 1];
  }

  /** Nothing else touches the session table or the stream: all that a run leaves there are the slots it has
      granted and its replies. */
  lemma {:induction false} RunLeaves(w: Wire, p: Pointer, t: Table, o: Outbox, c: Config)
    requires ValidTable(t) && ValidConfig(c)
    ensures var r := Process(w, p, t, o, c); r.table == TableAfter(t, r.log) && r.out == OutAfter(o, r.log)
    decreases Measure(w)
  {
    TurnProgress(w, Limit(c));
    match NextTurn(w, Limit(c))
    case Ended(rest) =>
    case Skipped(rest) =>
      ProcessSkips(w, p, t, o, c);
      RunLeaves(rest, p, t, o, c);
    case Taken(h, got, rest) =>
      var q := Held(p, h, got);
      var r := React(t, h, q, c);
      var e := Entry(h, got, r.effect);
      ProcessTakes(w, p, t, o, c);
      ReactCauses(t, h, got, q, c);
      if Ends(r.effect) {
        AfterCons(e, [], t, o);
      } else {
        RunLeaves(rest, q, r.table, Emit(o, r.effect), c);
        AfterCons(e, Process(rest, q, r.table, Emit(o, r.effect), c).log, t, o);
      }
  }

  /** A message has ended the run, or the stream is used up. */
  predicate Over(r: Run) {
    (r.log != [] && Ends(r.log[|r.log| - 1].effect)) || r.rest.bytes == []
  }

  lemma OverCons(e: Entry, r: Run)
    requires Over(r)
    ensures Over(Logged([e], r))
  {
    assert r.log != [] ==> ([e] + r.log)[|r.log|] == r.log[|r.log| - 1];
  }

  /** A run goes on until one of the two. */
  lemma {:induction false} RunEnds(w: Wire, p: Pointer, t: Table, o: Outbox, c: Config)
    requires ValidTable(t) && ValidConfig(c)
    ensures Over(Process(w, p, t, o, c))
    decreases Measure(w)
  {
    TurnProgress(w, Limit(c));
    match NextTurn(w, Limit(c))
    case Ended(rest) =>
    case Skipped(rest) =>
      ProcessSkips(w, p, t, o, c);
      RunEnds(rest, p, t, o, c);
    case Taken(h, got, rest) =>
      var q := Held(p, h, got);
      var r := React(t, h, q, c);
      ProcessTakes(w, p, t, o, c);
      if !Ends(r.effect) {
        RunEnds(rest, q, r.table, Emit(o, r.effect), c);
        OverCons(Entry(h, got, r.effect), Process(rest, q, r.table, Emit(o, r.effect), c));
      }
  }

  // ===== reads that come short =====

  /** A header read that fails or comes short is followed by another one for a whole header: the bytes that
      it got are lost. */
  lemma ShortHeader(w: Wire, p: Pointer, t: Table, o: Outbox, c: Config)
    requires ValidTable(t) && ValidConfig(c) && w.plan != [] && w.bytes != [] && !Answers(w.plan, 16)
    ensures var lost := if w.plan[0].ReadFails? then 0 else Min(w.plan[0].limit, |w.bytes|);
            Process(w, p, t, o, c) == Process(Wire(w.bytes[lost..], w.plan[1..]), p, t, o, c)
  {
    assert NextTurn(w, Limit(c)) == Skipped(AfterRead(w, MSG_HEADER_SIZE));
    ProcessSkips(w, p, t, o, c);
  }

  /** A payload read is not repeated: if it fails or comes short, the message is dispatched with what it got,
      and the next header is looked for in the rest of the payload. */
  lemma ShortPayload(w: Wire, m: Frame, tail: seq<byte>, p: Pointer, t: Table, o: Outbox, c: Config)
    requires ValidTable(t) && ValidConfig(c) && w.bytes == Encode(m) + tail && 0 < |m.payload| <= Limit(c)
    requires |w.plan| >= 2 && Answers(w.plan, 16)
    ensures var k := if w.plan[1].ReadFails? then 0 else Min(w.plan[1].limit, |m.payload|);
            var run := Process(w, p, t, o, c);
            && run.log != [] && run.log[0].header == HeaderOf(m) && run.log[0].got == m.payload[..k]
            && run.log[1..] ==
               if Ends(run.log[0].effect) then []
               else Process(Wire(m.payload[k..] + tail, w.plan[2..]), At(m.payload[..k]),
                            TableAfter(t, run.log[..1]), OutAfter(o, run.log[..1]), c).log
  {
    var k := if w.plan[1].ReadFails? then 0 else Min(w.plan[1].limit, |m.payload|);
    var h, got, q := HeaderOf(m), m.payload[..k], At(m.payload[..k]);
    ShortTurn(w, m, tail, Limit(c), k);
    var r := React(t, h, q, c);
    var e := Entry(h, got, r.effect);
    ProcessTakes(w, p, t, o, c);
    ReactCauses(t, h, got, q, c);
    AfterCons(e, [], t, o);
    assert [e] + [] == [e] && Process(w, p, t, o, c).log[..1] == [e];
    RoomIsFreeSlot(t);
  }

  lemma ShortTurn(w: Wire, m: Frame, tail: seq<byte>, limit: nat, k: nat)
    requires w.bytes == Encode(m) + tail && 0 < |m.payload| <= limit && |w.plan| >= 2 && Answers(w.plan, 16)
    requires k == if w.plan[1].ReadFails? then 0 else Min(w.plan[1].limit, |m.payload|)
    ensures NextTurn(w, limit) == Taken(HeaderOf(m), m.payload[..k], Wire(m.payload[k..] + tail, w.plan[2..]))
  {
    var body := AfterRead(w, MSG_HEADER_SIZE);
    assert w.bytes[..MSG_HEADER_SIZE] == EncodeHeader(HeaderOf(m));
    assert body == Wire(m.payload + tail, w.plan[1..]);
    DecodeEncodeHeader(HeaderOf(m));
    assert (m.payload + tail)[..k] == m.payload[..k] && (m.payload + tail)[k..] == m.payload[k..] + tail;
  }

  /** A message whose payload does not come at all because the peer has gone is not dispatched. */
  lemma NoPayloadComes(w: Wire, h: Header, p: Pointer, t: Table, o: Outbox, c: Config)
    requires ValidTable(t) && ValidConfig(c) && w.bytes == EncodeHeader(h)
    requires h.prologue == 0x4853 && 0 < h.payloadLength <= Limit(c)
    requires Answers(w.plan, 16) && (|w.plan| >= 2 ==> w.plan[1].ReadAtMost?)
    ensures var r := Process(w, p, t, o, c); r.log == [] && r.table == t && r.out == o && r.rest.bytes == []
  {
    var body := AfterRead(w, MSG_HEADER_SIZE);
    assert w.bytes[..MSG_HEADER_SIZE] == w.bytes && body.bytes == [];
    DecodeEncodeHeader(h);
    assert NextTurn(w, Limit(c)) == Ended(AfterRead(body, h.payloadLength));
  }

  // ===== streams that the loop makes nothing of =====

  function HeaderAt(bytes: seq<byte>, k: nat): Header
    requires k + MSG_HEADER_SIZE <= |bytes|
  {
    DecodeHeader(bytes[k..k + MSG_HEADER_SIZE])
  }

  predicate Rejects(bytes: seq<byte>, k: nat, limit: nat)
    requires k + MSG_HEADER_SIZE <= |bytes|
  {
    HeaderAt(bytes, k).prologue != MSG_HEADER_PROLOGUE || HeaderAt(bytes, k).payloadLength > limit
  }

  /** Blocks of 16 bytes, each of which the loop drops as a header. */
  predicate Refusable(junk: seq<byte>, limit: nat) {
    junk == [] || (|junk| >= 16 && Rejects(junk, 0, limit) && Refusable(junk[16..], limit))
  }

  /** This many header reads are answered in full, with failing ones in between. */
  predicate AnswersHeaders(plan: seq<ReadEvent>, blocks: nat)
    decreases |plan|, blocks
  {
    if blocks == 0 then true
    else if plan != [] && plan[0].ReadFails? then AnswersHeaders(plan[1..], blocks)
    else Answers(plan, 16) && AnswersHeaders(Tail(plan), blocks - 1)
  }

  /** What is left of such a plan behind them. */
  function PlanBehind(plan: seq<ReadEvent>, blocks: nat): seq<ReadEvent>
    decreases |plan|, blocks
  {
    if blocks == 0 then plan
    else if plan != [] && plan[0].ReadFails? then PlanBehind(plan[1..], blocks)
    else PlanBehind(Tail(plan), blocks - 1)
  }

  lemma {:induction false} WholeBlocks(junk: seq<byte>, limit: nat)
    requires Refusable(junk, limit)
    ensures |junk| % 16 == 0
  {
    if junk != [] {
      WholeBlocks(junk[16..], limit);
    }
  }

  /** A refused header is dropped, if its read is not. */
  lemma BlockTurn(w: Wire, limit: nat)
    requires |w.bytes| >= 16 && Rejects(w.bytes, 0, limit)
    requires (w.plan != [] && w.plan[0].ReadFails?) || Answers(w.plan, 16)
    ensures NextTurn(w, limit) == Skipped(AfterRead(w, 16))
  {
    assert w.bytes[0..0 + 16] == w.bytes[..16];
  }

  /** k passes that only drop bytes lead from one wire to another. */
  predicate Skips(w: Wire, limit: nat, k: nat, behind: Wire)
    decreases k
  {
    if k == 0 then w == behind
    else NextTurn(w, limit).Skipped? && Skips(NextTurn(w, limit).rest, limit, k - 1, behind)
  }

  lemma {:induction false} ProcessSkipsAll(w: Wire, k: nat, behind: Wire, p: Pointer, t: Table, o: Outbox, c: Config)
    requires ValidTable(t) && ValidConfig(c) && Skips(w, Limit(c), k, behind)
    ensures Process(w, p, t, o, c) == Process(behind, p, t, o, c)
    decreases k
  {
    if k > 0 {
      ProcessSkips(w, p, t, o, c);
      ProcessSkipsAll(NextTurn(w, Limit(c)).rest, k - 1, behind, p, t, o, c);
    }
  }

  lemma HeadersStep(plan: seq<ReadEvent>, blocks: positive, behind: seq<ReadEvent>)
    requires AnswersHeaders(plan, blocks) && behind == PlanBehind(plan, blocks)
    ensures if plan != [] && plan[0].ReadFails? then
              AnswersHeaders(plan[1..], blocks) && behind == PlanBehind(plan[1..], blocks)
            else
              && Answers(plan, 16) && AnswersHeaders(Tail(plan), blocks - 1)
              && behind == PlanBehind(Tail(plan), blocks - 1)
  {
  }

  lemma OneMoreSkip(w: Wire, rest: Wire, limit: nat, k: nat, behind: Wire)
    requires NextTurn(w, limit) == Skipped(rest) && Skips(rest, limit, k, behind)
    ensures Skips(w, limit, k + 1, behind)
  {
  }

  lemma FrontRejects(bytes: seq<byte>, junk: seq<byte>, limit: nat)
    requires |junk| >= 16 && Refusable(junk, limit) && junk <= bytes
    ensures Rejects(bytes, 0, limit) && Refusable(junk[16..], limit)
  {
    assert Rejects(junk, 0, limit) && bytes[0..0 + 16] == junk[0..0 + 16];
  }

  lemma {:induction false} DropsBlocks(w: Wire, junk: seq<byte>, blocks: nat, behind: Wire, limit: nat)
    requires Refusable(junk, limit) && |junk| == 16 * blocks && w.bytes == junk + behind.bytes
    requires AnswersHeaders(w.plan, blocks) && behind.plan == PlanBehind(w.plan, blocks)
    ensures exists k: nat :: Skips(w, limit, k, behind)
    decreases |w.plan|, |junk|
  {
    if blocks == 0 {
      assert w.bytes == behind.bytes;
      assert Skips(w, limit, 0, behind);
    } else {
      HeadersStep(w.plan, blocks, behind.plan);
      FrontRejects(w.bytes, junk, limit);
      var rest := AfterRead(w, 16);
      if w.plan != [] && w.plan[0].ReadFails? {
        DropsBlocks(rest, junk, blocks, behind, limit);
      } else {
        assert rest.bytes == junk[16..] + behind.bytes;
        DropsBlocks(rest, junk[16..], blocks - 1, behind, limit);
      }
      SkipsFromNext(w, limit, behind);
    }
  }

  lemma SkipsFromNext(w: Wire, limit: nat, behind: Wire)
    requires |w.bytes| >= 16 && Rejects(w.bytes, 0, limit)
    requires (w.plan != [] && w.plan[0].ReadFails?) || Answers(w.plan, 16)
    requires exists k: nat :: Skips(AfterRead(w, 16), limit, k, behind)
    ensures exists k: nat :: Skips(w, limit, k, behind)
  {
    BlockTurn(w, limit);
    var k: nat :| Skips(AfterRead(w, 16), limit, k, behind);
    OneMoreSkip(w, AfterRead(w, 16), limit, k, behind);
  }

  /** Getting back into step: after any number of 16-byte blocks with a wrong prologue or a length over the
      limit, the frames behind them are served exactly as if the stream began with them. */
  lemma Resynchronises(w: Wire, junk: seq<byte>, ms: seq<Frame>, p: Pointer, t: Table, o: Outbox, c: Config)
    requires ValidTable(t) && ValidConfig(c) && w.bytes == junk + EncodeAll(ms)
    requires Refusable(junk, Limit(c)) && AnswersHeaders(w.plan, |junk| / 16)
    ensures Faithful(Process(w, p, t, o, c), Serve(ms, t, o, c)) <==>
            Covers(PlanBehind(w.plan, |junk| / 16), ms, t, c) && Sound(ms, p, t, c)
  {
    var blocks := |junk| / 16;
    var behind := Wire(EncodeAll(ms), PlanBehind(w.plan, blocks));
    WholeBlocks(junk, Limit(c));
    DropsBlocks(w, junk, blocks, behind, Limit(c));
    var k: nat :| Skips(w, Limit(c), k, behind);
    ProcessSkipsAll(w, k, behind, p, t, o, c);
    FidelityExact(behind, ms, p, t, o, c);
  }

  /** A frame over the limit is such a block, followed by its payload. */
  lemma OversizedIsRefusable(m: Frame, limit: nat)
    requires |m.payload| > limit && Refusable(m.payload, limit)
    ensures Refusable(Encode(m), limit)
  {
    var bytes := Encode(m);
    assert bytes[0..0 + 16] == EncodeHeader(HeaderOf(m)) && bytes[16..] == m.payload;
    DecodeEncodeHeader(HeaderOf(m));
  }

  /** Wherever the loop looks for a header in these bytes, it drops what it finds. */
  predicate Barren(bytes: seq<byte>, limit: nat) {
    forall k :: 0 <= k <= |bytes| - MSG_HEADER_SIZE ==> Rejects(bytes, k, limit)
  }

  lemma BarrenSuffix(bytes: seq<byte>, n: nat, limit: nat)
    requires n <= |bytes| && Barren(bytes, limit)
    ensures Barren(bytes[n..], limit)
  {
    var rest := bytes[n..];
    forall k | 0 <= k <= |rest| - MSG_HEADER_SIZE
      ensures Rejects(rest, k, limit)
    {
      assert rest[k..k + MSG_HEADER_SIZE] == bytes[n + k..n + k + MSG_HEADER_SIZE];
      assert Rejects(bytes, n + k, limit);
    }
  }

  lemma BarrenTurn(w: Wire, limit: nat)
    requires Barren(w.bytes, limit)
    ensures !NextTurn(w, limit).Taken? && Barren(NextTurn(w, limit).rest.bytes, limit)
  {
    BarrenSuffix(w.bytes, Max0(ReadCount(w, MSG_HEADER_SIZE)), limit);
    if ReadCount(w, MSG_HEADER_SIZE) == MSG_HEADER_SIZE {
      assert Rejects(w.bytes, 0, limit);
    }
  }

  /** Over such a stream the thread does nothing, however its reads go. */
  lemma {:induction false} BarrenRun(w: Wire, p: Pointer, t: Table, o: Outbox, c: Config)
    requires ValidTable(t) && ValidConfig(c) && Barren(w.bytes, Limit(c))
    ensures var r := Process(w, p, t, o, c); r.log == [] && r.table == t && r.out == o
    decreases Measure(w)
  {
    TurnProgress(w, Limit(c));
    BarrenTurn(w, Limit(c));
    if NextTurn(w, Limit(c)).Skipped? {
      ProcessSkips(w, p, t, o, c);
      BarrenRun(NextTurn(w, Limit(c)).rest, p, t, o, c);
    }
  }

  lemma {:induction false} LargeBE(m: seq<byte>)
    requires m != [] && 0 !in m
    ensures LoadBE(m) >= Pow256(|m| - 1)
  {
    if |m| > 1 {
      LargeBE(m[..|m| - 1]);
    } else {
      assert m[0] in m;
    }
  }

  /** A header that does not begin with 'H' is dropped. */
  lemma NoPrologue(bytes: seq<byte>, k: nat, limit: nat)
    requires k + MSG_HEADER_SIZE <= |bytes| && bytes[k] != 0x48
    ensures Rejects(bytes, k, limit)
  {
    var m := bytes[k..k + MSG_HEADER_SIZE];
    assert m[..2][0] == bytes[k];
    PrologueBytes(m[..2]);
  }

  /** A length field without a zero byte is beyond every limit. */
  lemma NameAsLength(bytes: seq<byte>, k: nat, limit: nat)
    requires k + MSG_HEADER_SIZE <= |bytes| && limit <= MAX_WIRE_SIZE && 0 !in bytes[k + 8..k + MSG_HEADER_SIZE]
    ensures Rejects(bytes, k, limit)
  {
    var m := bytes[k..k + MSG_HEADER_SIZE];
    assert m[8..] == bytes[k + 8..k + MSG_HEADER_SIZE];
    LargeBE(m[8..]);
    Pow256Values();
  }

  /** hs_connect's first message with a name over the limit. */
  lemma OverlongIsBarren(name: Name, limit: nat)
    requires FitsInt(Message(INITIALIZE, 0, HISLIP_VERSION * TWO_16 + HISLIP_VENDOR_ID, name))
    requires limit < |name| && limit <= MAX_WIRE_SIZE
    ensures Barren(Encode(Message(INITIALIZE, 0, HISLIP_VERSION * TWO_16 + HISLIP_VENDOR_ID, name)), limit)
  {
    var m: Frame := Message(INITIALIZE, 0, HISLIP_VERSION * TWO_16 + HISLIP_VENDOR_ID, name);
    var bytes := Encode(m);
    forall k | 0 <= k <= |bytes| - MSG_HEADER_SIZE
      ensures Rejects(bytes, k, limit)
    {
      if k == 0 {
        assert bytes[0..MSG_HEADER_SIZE] == EncodeHeader(HeaderOf(m));
        DecodeEncodeHeader(HeaderOf(m));
      } else if k < 8 {
        InitializeBytes(m);
        assert bytes[k] == bytes[..8][k];
        NoPrologue(bytes, k, limit);
      } else {
        assert bytes[k + 8..k + MSG_HEADER_SIZE] == name[k - 8..k];
        NameAsLength(bytes, k, limit);
      }
    }
  }

  /** Section 6.1 of IVI-6.1 has no size for the subaddress, but the server has: a thread that is sent an
      Initialize with a name over its limit does nothing, however its reads go - no reply, no slot. */
  lemma OverlongNameIsIgnored(w: Wire, name: Name, p: Pointer, t: Table, o: Outbox, c: Config)
    requires ValidTable(t) && ValidConfig(c) && Limit(c) < |name|
    requires FitsInt(Message(INITIALIZE, 0, HISLIP_VERSION * TWO_16 + HISLIP_VENDOR_ID, name))
    requires w.bytes == Encode(Message(INITIALIZE, 0, HISLIP_VERSION * TWO_16 + HISLIP_VENDOR_ID, name))
    ensures var r := Process(w, p, t, o, c); r.log == [] && r.table == t && r.out == o
  {
    OverlongIsBarren(name, Limit(c));
    BarrenRun(w, p, t, o, c);
  }

  // ===== what reaches the handler =====

  /** The payload bytes given to message_sync, in order. */
  function Handled(log: seq<Entry>): seq<byte> {
    if log == [] then [] else (if log[0].effect.CalledSync? then log[0].got else []) + Handled(log[1..])
  }

  lemma HandledCons(e: Entry, log: seq<Entry>)
    ensures Handled([e] + log) == (if e.effect.CalledSync? then e.got else []) + Handled(log)
  {
    assert ([e] + log)[0] == e && ([e] + log)[1..] == log;
  }

  /** A message_sync callback is set where Data finds it. */
  predicate Handles(c: Config) {
    c.calls != [] && c.calls[|c.calls| - 1].callbacks.sync
  }

  /** The payload bytes read for the messages of kind 6, in order. */
  function DataRead(log: seq<Entry>): seq<byte> {
    if log == [] then [] else (if log[0].header.kind == 6 then log[0].got else []) + DataRead(log[1..])
  }

  /** Whatever the mix of frames: the handler is given the payloads of the Data messages, in order, and those
      of no other kind; without a message_sync it is given nothing. */
  lemma HandledIsData(w: Wire, p: Pointer, t: Table, o: Outbox, c: Config)
    requires ValidTable(t) && ValidConfig(c)
    ensures var log := Process(w, p, t, o, c).log; Handled(log) == if Handles(c) then DataRead(log) else []
  {
    var log := Process(w, p, t, o, c).log;
    forall i | 0 <= i < |log|
      ensures log[i].effect.CalledSync? <==> log[i].header.kind == 6 && Handles(c)
    {
      EveryMessage(w, p, t, o, c, i);
    }
    HandledByKind(log, Handles(c));
  }

  lemma {:induction false} HandledByKind(log: seq<Entry>, handles: bool)
    requires forall i :: 0 <= i < |log| ==> (log[i].effect.CalledSync? <==> log[i].header.kind == 6 && handles)
    ensures Handled(log) == if handles then DataRead(log) else []
  {
    if log != [] {
      HandledByKind(log[1..], handles);
    }
  }

  /** The payloads of the Data frames among these. */
  function DataOf(ms: seq<Frame>): seq<byte> {
    if ms == [] then [] else (if ms[0].kind == DATA then ms[0].payload else []) + DataOf(ms[1..])
  }

  predicate OnlyData(ms: seq<Frame>) {
    forall i :: 0 <= i < |ms| ==> ms[i].kind == DATA || ms[i].kind == DATA_END
  }

  /** The callback hangs on Data only. */
  lemma {:induction false} ServeHandlesData(ms: seq<Frame>, t: Table, o: Outbox, c: Config)
    requires ValidTable(t) && Handles(c) && OnlyData(ms)
    ensures Handled(Serve(ms, t, o, c).log) == DataOf(ms)
    decreases |ms|
  {
    if ms != [] {
      var effect := if ms[0].kind == DATA then CalledSync else Silent;
      ServeHandlesData(ms[1..], t, o, c);
      HandledCons(Entry(HeaderOf(ms[0]), ms[0].payload, effect), Serve(ms[1..], t, o, c).log);
    }
  }

  /** Of a cut payload the Data frames carry all but the last fragment. */
  lemma {:induction false} FragmentsData(p: Payload, room: positive, id: u32)
    requires p != []
    ensures var fs := Fragments(p, room, id);
            OnlyData(fs) && fs != [] && DataOf(fs) + fs[|fs| - 1].payload == p
    decreases |p|
  {
    var first, rest := NextFrame(p, room, id), p[Min(|p|, room)..];
    var others := Fragments(rest, room, IdAfter(id, 1));
    FirstFragment(p, room, id);
    assert ([first] + others)[0] == first && ([first] + others)[1..] == others;
    FragmentsNonEmpty(rest, room, IdAfter(id, 1));
    if |p| > room {
      FragmentsData(rest, room, IdAfter(id, 1));
    }
    LastPayload(first, others, DataOf(others), p);
  }

  lemma {:induction false} FragmentsSound(p: Payload, room: positive, id: u32, q: Pointer, t: Table, c: Config)
    requires ValidTable(t) && ValidConfig(c) && c.calls != [] && room <= Limit(c)
    ensures Sound(Fragments(p, room, id), q, t, c)
    decreases |p|
  {
    if p != [] {
      var first, rest := NextFrame(p, room, id), p[Min(|p|, room)..];
      var others := Fragments(rest, room, IdAfter(id, 1));
      FirstFragment(p, room, id);
      assert ([first] + others)[0] == first && ([first] + others)[1..] == others;
      FragmentsSound(rest, room, IdAfter(id, 1), Held(q, HeaderOf(first), first.payload), t, c);
    }
  }

  /** From the stream on: when a payload has been cut to frames within the server's limit, and reads come
      complete, the handler has been given all but the last fragment once the loop has used up the stream;
      nothing at all if the payload fitted one frame. */
  lemma HandlerMissesDataEnd(w: Wire, p: Payload, max: nat, id: u32, q: Pointer, t: Table, o: Outbox, c: Config)
    requires ValidTable(t) && ValidConfig(c) && Handles(c) && p != [] && MSG_HEADER_SIZE < max <= c.sizeMax
    requires var fs := Fragments(p, max - MSG_HEADER_SIZE, id);
             w.bytes == EncodeAll(fs) && Covers(w.plan, fs, t, c)
    ensures var fs := Fragments(p, max - MSG_HEADER_SIZE, id);
            var handled := Handled(Process(w, q, t, o, c).log);
            && fs != [] && handled + fs[|fs| - 1].payload == p
            && (|p| <= max - MSG_HEADER_SIZE ==> handled == [])
  {
    var room := max - MSG_HEADER_SIZE;
    FragmentsSound(p, room, id, q, t, c);
    FidelityExact(w, Fragments(p, room, id), q, t, o, c);
    FragmentsData(p, room, id);
    ServeHandlesData(Fragments(p, room, id), t, o, c);
  }

  lemma LastPayload(first: Frame, others: seq<Frame>, handled: seq<byte>, p: Payload)
    requires if others == [] then first.kind == DATA_END && handled == [] && first.payload == p
             else first.kind == DATA && first.payload + (handled + others[|others| - 1].payload) == p
    ensures var fs := [first] + others;
            (if first.kind == DATA then first.payload else []) + handled + fs[|fs| - 1].payload == p
  {
    var fs := [first] + others;
    assert fs[|fs| - 1] == if others == [] then first else others[|others| - 1];
    if others != [] {
      Associates(first.payload, handled, others[|others| - 1].payload);
    }
  }

  // ===== answering a client =====

  const CC_RMT_DELIVERED: byte := 1

  /** hs_server_send_response: one DataEnd frame, whatever its size. */
  method SendResponse(socket: Socket, messageId: u32, data: seq<byte>, length: nat)
    requires length <= |data| && MSG_HEADER_SIZE + length <= MAX_WIRE_SIZE
    modifies socket`out
    ensures socket.out ==
            AfterWrite(old(socket.out), Encode(Message(DATA_END, CC_RMT_DELIVERED, messageId, data[..length])))
  {
    var message := MsgCreate(DATA_END, CC_RMT_DELIVERED, messageId, length, data);
    var _ := MsgSend(socket, message, Message(DATA_END, CC_RMT_DELIVERED, messageId, data[..length]));
  }

  /** The client's receive loop, as written or repaired, hands a response over exactly when it fits. */
  lemma ResponseRoundTrip(w: Wire, messageId: u32, data: Payload, tail: seq<byte>, cap: nat)
    requires Steady(w.plan)
    requires w.bytes == Encode(Message(DATA_END, CC_RMT_DELIVERED, messageId, data)) + tail
    ensures Assemble(w, cap) == AssembleLast(w, cap)
    ensures |data| <= cap <==> Assemble(w, cap).Whole?
    ensures |data| <= cap ==> Assemble(w, cap).data == data && Assemble(w, cap).rest.bytes == tail
  {
    ReceiveFront(w, Message(DATA_END, CC_RMT_DELIVERED, messageId, data), tail, cap);
  }
}
