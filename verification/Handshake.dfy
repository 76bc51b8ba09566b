/** The initialization exchange (section 6.1 of IVI-6.1) between any number of hs_connect calls and one
    hs_process thread per connection of one server, under every interleaving. Connection c has a
    synchronous channel served by thread 2c and an asynchronous one served by thread 2c + 1; the
    threads allocate from the server's session table as SessionThreads describes. */
module Handshake {
  import opened ByteOrder
  import opened Message
  import opened Sessions
  import opened SessionLog
  import Framing
  import T = SessionThreads

  /** Where hs_connect stands. */
  datatype ClientPc =
    | Start
    | AwaitInitialize
    | GotId(id: u16)         // SessionID stored, AsyncInitialize not sent yet
    | AwaitAsync(id: u16)
    | Connected(id: u16)     // hs_connect returned a handle
    | GaveUp                 // hs_connect returned -1

  datatype ServerPc = Listening | Allocating | Stopped

  /** One channel: frames under way in both directions, and the thread that serves it; `held` says whether
      the thread's payload pointer has been set. */
  datatype Channel = Channel(up: seq<Message>, down: seq<Message>, pc: ServerPc, held: bool)

  /** One hs_connect call: the subaddress it asks for (empty for NULL), where it stands, its channels. */
  datatype Link = Link(subaddress: Name, client: ClientPc, sync: Channel, async: Channel)

  /** An AsyncInitialize that the server has seen. */
  datatype Announcement = Announcement(channel: nat, parameter: u32)

  /** Whether the server has registered a subaddress, and the longest payload it takes. */
  datatype Server = Server(registered: bool, limit: nat)

  /** A name with which the server can serve a client: not too long, and present if there is something to
      compare it with. */
  predicate Servable(name: Name, server: Server) {
    |name| <= server.limit && (server.registered ==> name != [])
  }

  /** `crashed`: a thread has followed an unset pointer, which ends the process with all its threads. */
  datatype State = State(links: seq<Link>, alloc: T.State, announced: seq<Announcement>, server: Server, crashed: bool)

  datatype Move =
    | ClientMove(c: nat)              // hs_connect takes its next step
    | ClientGivesUp(c: nat)           // a call of hs_connect's fails or times out
    | ServerMove(c: nat, async: bool) // the thread behind a channel takes its next step

  const INITIALIZE_PARAMETER: u32 := HISLIP_VERSION * TWO_16 + HISLIP_VENDOR_ID

  function FreshLink(subaddress: Name): Link {
    Link(subaddress, Start, Channel([], [], Listening, false), Channel([], [], Listening, false))
  }

  /** Client c asks for subaddress names[c]. */
  function Init(names: seq<Name>, server: Server): State {
    State(seq(|names|, c requires 0 <= c < |names| => FreshLink(names[c])), T.Init(2 * |names|), [], server, false)
  }

  /** What hs_connect does next (src/client.c:75-168). */
  function ClientStep(l: Link): Link {
    match l.client
    case Start =>
      l.(client := AwaitInitialize,
         sync := l.sync.(up := l.sync.up + [Message(INITIALIZE, 0, INITIALIZE_PARAMETER, l.subaddress)]))
    case AwaitInitialize =>
      if l.sync.down == [] then l
      else
        var m := l.sync.down[0];
        l.(client := if m.kind == INITIALIZE_RESPONSE then GotId(m.parameter % TWO_16) else GaveUp,
           sync := l.sync.(down := l.sync.down[1..]))
    case GotId(id) =>
      l.(client := AwaitAsync(id),
         async := l.async.(up := l.async.up + [Message(ASYNC_INITIALIZE, 0, id, [])]))
    case AwaitAsync(id) =>
      if l.async.down == [] then l
      else
        var m := l.async.down[0];
        l.(client := if m.kind == ASYNC_INITIALIZE_RESPONSE then Connected(id) else GaveUp,
           async := l.async.(down := l.async.down[1..]))
    case Connected(_) => l
    case GaveUp => l
  }

  /** A thread's channel, the allocator, the announcements after a step of the thread, and whether it crashed. */
  datatype Served = Served(channel: Channel, alloc: T.State, announced: seq<Announcement>, crashed: bool)

  /** What hs_process does next on channel k (src/server.c:133-242). A frame over the size limit is dropped;
      its payload stays on the stream, but no header is found in it. Other frame types are skipped. */
  function Serve(ch: Channel, alloc: T.State, announced: seq<Announcement>, server: Server, k: nat): Served
    requires T.Shaped(alloc) && k < |alloc.pcs|
  {
    match ch.pc
    case Stopped => Served(ch, alloc, announced, false)
    case Listening =>
      if ch.up == [] then Served(ch, alloc, announced, false)
      else
        var m, rest := ch.up[0], ch.(up := ch.up[1..], held := ch.held || ch.up[0].payload != []);
        if |m.payload| > server.limit then Served(ch.(up := ch.up[1..]), alloc, announced, false)
        else if m.kind == INITIALIZE then
          if m.parameter / TWO_16 != HISLIP_VERSION then Served(rest.(pc := Stopped), alloc, announced, false)
          else Served(rest.(pc := Allocating), T.Do(alloc, k, T.BeginNew), announced, false)
        else if m.kind == ASYNC_INITIALIZE then
          var reply := Message(ASYNC_INITIALIZE_RESPONSE, 0, HISLIP_VENDOR_ID, []);
          Served(rest.(down := rest.down + [reply]), alloc, announced + [Announcement(k, m.parameter)], false)
        else Served(rest, alloc, announced, false)
    case Allocating =>
      var next := T.Do(alloc, k, T.Advance);
      if !alloc.pcs[k].Returned? then Served(ch, next, announced, false)
      else if alloc.pcs[k].result < 0 then Served(ch.(pc := Stopped), next, announced, false)
      else if server.registered && !ch.held then Served(ch.(pc := Stopped), next, announced, true)
      else
        var parameter := (HISLIP_VERSION * TWO_16 + alloc.pcs[k].result) % TWO_32;
        var reply := Message(INITIALIZE_RESPONSE, CC_PREFER_SYNC, parameter, []);
        Served(ch.(down := ch.down + [reply], pc := Listening), next, announced, false)
  }

  predicate Shaped(s: State) {
    T.Shaped(s.alloc) && |s.alloc.pcs| == 2 * |s.links|
  }

  /** The thread behind a channel of connection c. */
  function ThreadOf(c: nat, async: bool): nat {
    if async then 2 * c + 1 else 2 * c
  }

  function Side(l: Link, async: bool): Channel {
    if async then l.async else l.sync
  }

  function AfterServe(s: State, c: nat, async: bool, r: Served): State
    requires c < |s.links|
  {
    var l := s.links[c];
    State(s.links[c := if async then l.(async := r.channel) else l.(sync := r.channel)],
          r.alloc, r.announced, s.server, r.crashed)
  }

  function Do(s: State, move: Move): (s': State)
    requires Shaped(s)
    ensures Shaped(s') && |s'.links| == |s.links|
  {
    if move.c >= |s.links| then s
    else
      var l := s.links[move.c];
      match move
      case ClientMove(c) => s.(links := s.links[c := ClientStep(l)])
      case ClientGivesUp(c) => if l.client.Connected? then s else s.(links := s.links[c := l.(client := GaveUp)])
      case ServerMove(c, async) =>
        if s.crashed then s
        else AfterServe(s, c, async, Serve(Side(l, async), s.alloc, s.announced, s.server, ThreadOf(c, async)))
  }

  /** The moves of a schedule, made from a given state. */
  function Extend(s: State, moves: seq<Move>): (r: State)
    requires Shaped(s)
    ensures Shaped(r) && |r.links| == |s.links|
  {
    if moves == [] then s else Do(Extend(s, moves[..|moves| - 1]), moves[|moves| - 1])
  }

  /** The state of server and clients after a schedule of moves. */
  function Execute(names: seq<Name>, server: Server, schedule: seq<Move>): (s: State)
    ensures Shaped(s) && |s.links| == |names|
  {
    Extend(Init(names, server), schedule)
  }

  lemma ExtendSnoc(s: State, moves: seq<Move>, move: Move)
    requires Shaped(s)
    ensures Extend(s, moves + [move]) == Do(Extend(s, moves), move)
  {
    assert (moves + [move])[..|moves|] == moves;
  }

  lemma {:induction false} ExtendAppend(s: State, a: seq<Move>, b: seq<Move>)
    requires Shaped(s)
    ensures Extend(s, a + b) == Extend(Extend(s, a), b)
  {
    if b == [] {
      assert a + b == a;
    } else {
      ExtendAppend(s, a, b[..|b| - 1]);
      assert (a + b)[..|a + b| - 1] == a + b[..|b| - 1];
    }
  }

  // ----- the invariant -----

  /** The server's table gave slot id to the thread behind the synchronous channel of connection c. */
  predicate Granted(log: seq<Event>, c: nat, id: int) {
    Event(2 * c, NewCall, id) in log
  }

  predicate HasId(pc: ClientPc) {
    pc.GotId? || pc.AwaitAsync? || pc.Connected?
  }

  predicate Allocates(pc: T.Pc) {
    !pc.FreeEntry? && !pc.FreeCheck? && !pc.FreeWrite? && (pc.Unlocking? || pc.Returned? ==> pc.call == NewCall)
  }

  predicate SyncInv(l: Link, c: nat, alloc: T.State)
    requires T.Shaped(alloc) && 2 * c < |alloc.pcs|
  {
    && (forall i :: 0 <= i < |l.sync.up| ==>
          l.sync.up[i].kind == INITIALIZE && l.sync.up[i].parameter == INITIALIZE_PARAMETER)
    && |l.sync.up| + alloc.begun[2 * c] + (if l.client == Start then 1 else 0) <= 1
    && (forall i :: 0 <= i < |l.sync.down| ==>
          l.sync.down[i].kind == INITIALIZE_RESPONSE && Granted(alloc.log, c, l.sync.down[i].parameter % TWO_16))
    && Allocates(alloc.pcs[2 * c])
    && (l.sync.pc != Allocating ==> alloc.pcs[2 * c] == T.Idle)
  }

  predicate AsyncInv(l: Link, c: nat, alloc: T.State, announced: seq<Announcement>)
    requires T.Shaped(alloc) && 2 * c + 1 < |alloc.pcs|
  {
    && (forall i :: 0 <= i < |l.async.up| ==>
          l.async.up[i].kind == ASYNC_INITIALIZE && Granted(alloc.log, c, l.async.up[i].parameter) &&
          (l.client.AwaitAsync? ==> l.async.up[i].parameter == l.client.id))
    && (l.client.Start? || l.client.AwaitInitialize? || l.client.GotId? ==> l.async.up == [] && l.async.down == [])
    && (l.client.AwaitAsync? && l.async.down != [] ==> Announcement(2 * c + 1, l.client.id) in announced)
    && alloc.pcs[2 * c + 1] == T.Idle && l.async.pc != Allocating
  }

  predicate LinkInv(l: Link, c: nat, alloc: T.State, announced: seq<Announcement>)
    requires T.Shaped(alloc) && 2 * c + 1 < |alloc.pcs|
  {
    && SyncInv(l, c, alloc)
    && AsyncInv(l, c, alloc, announced)
    && (HasId(l.client) ==> Granted(alloc.log, c, l.client.id))
    && (l.client.Connected? ==> Announcement(2 * c + 1, l.client.id) in announced)
  }

  predicate OnlyGrants(log: seq<Event>) {
    forall i :: 0 <= i < |log| ==> log[i].call == NewCall
  }

  predicate AnnouncementsInv(s: State) {
    forall i :: 0 <= i < |s.announced| ==>
      s.announced[i].channel % 2 == 1 && Granted(s.alloc.log, s.announced[i].channel / 2, s.announced[i].parameter)
  }

  predicate Inv(s: State) {
    && Shaped(s) && T.Inv(s.alloc) && OnlyGrants(s.alloc.log)
    && (forall c :: 0 <= c < |s.links| ==> LinkInv(s.links[c], c, s.alloc, s.announced))
    && AnnouncementsInv(s)
  }

  // ----- preservation -----

  /** What a step of allocator thread k leaves alone. */
  lemma AllocFrame(a: T.State, k: nat, move: T.Move)
    requires T.Shaped(a) && k < |a.pcs|
    ensures var b := T.Do(a, k, move);
            && (forall j :: 0 <= j < |a.pcs| && j != k ==> b.pcs[j] == a.pcs[j] && b.begun[j] == a.begun[j])
            && a.log <= b.log
  {
  }

  /** Steps of other connections do not disturb a link. */
  lemma LinkFrame(l: Link, c: nat, a: T.State, b: T.State, x: seq<Announcement>, y: seq<Announcement>)
    requires T.Shaped(a) && T.Shaped(b) && 2 * c + 1 < |a.pcs| == |b.pcs|
    requires LinkInv(l, c, a, x) && a.log <= b.log && x <= y
    requires b.pcs[2 * c] == a.pcs[2 * c] && b.begun[2 * c] == a.begun[2 * c] && b.pcs[2 * c + 1] == a.pcs[2 * c + 1]
    ensures LinkInv(l, c, b, y)
  {
  }

  lemma ClientStepKeepsLink(l: Link, c: nat, a: T.State, x: seq<Announcement>)
    requires T.Shaped(a) && 2 * c + 1 < |a.pcs| && LinkInv(l, c, a, x)
    ensures LinkInv(ClientStep(l), c, a, x)
  {
  }

  lemma {:induction false} LastOfIsInLog(log: seq<Event>, t: nat, e: Event)
    requires T.LastOf(log, t) == Framing.Some(e)
    ensures e in log
  {
    if log[|log| - 1].thread != t {
      LastOfIsInLog(log[..|log| - 1], t, e);
    }
  }

  /** What the thread reads from session_new is on record, and is a slot index. */
  lemma ReturnedIsGranted(a: T.State, c: nat)
    requires T.Inv(a) && 2 * c < |a.pcs| && a.pcs[2 * c].Returned? && a.pcs[2 * c].call == NewCall
    requires a.pcs[2 * c].result >= 0
    ensures Granted(a.log, c, a.pcs[2 * c].result) && a.pcs[2 * c].result < MAX_SESSIONS
  {
    var e := Event(2 * c, NewCall, a.pcs[2 * c].result);
    assert T.ThreadInv(a, 2 * c);
    LastOfIsInLog(a.log, 2 * c, e);
    var i :| 0 <= i < |a.log| && a.log[i] == e;
    EventResult(a.log, i);
  }

  lemma InitializeParameters(id: nat)
    requires id < TWO_16
    ensures INITIALIZE_PARAMETER / TWO_16 == HISLIP_VERSION
    ensures HISLIP_VERSION * TWO_16 + id < TWO_32 && (HISLIP_VERSION * TWO_16 + id) % TWO_16 == id
  {
  }

  /** The allocator gains at most grants when an allocating thread runs. */
  lemma AllocatingStep(a: T.State, k: nat, move: T.Move)
    requires T.Inv(a) && k < |a.pcs| && OnlyGrants(a.log) && Allocates(a.pcs[k]) && (move.BeginNew? || move.Advance?)
    ensures var b := T.Do(a, k, move); OnlyGrants(b.log) && Allocates(b.pcs[k])
  {
  }

  /** What a thread's step leaves alone: the state of other threads, history, and past announcements. */
  lemma ServeFrame(ch: Channel, a: T.State, x: seq<Announcement>, server: Server, k: nat)
    requires T.Shaped(a) && k < |a.pcs|
    ensures var r := Serve(ch, a, x, server, k);
            && T.Shaped(r.alloc) && |r.alloc.pcs| == |a.pcs|
            && (forall j :: 0 <= j < |a.pcs| && j != k ==> r.alloc.pcs[j] == a.pcs[j] && r.alloc.begun[j] == a.begun[j])
            && a.log <= r.alloc.log && x <= r.announced
  {
    AllocFrame(a, k, T.BeginNew);
    AllocFrame(a, k, T.Advance);
  }

  /** A step on the synchronous channel concerns the rest of the link only through the history. */
  lemma SyncChange(l: Link, ch: Channel, c: nat, a: T.State, b: T.State, x: seq<Announcement>)
    requires T.Shaped(a) && T.Shaped(b) && 2 * c + 1 < |a.pcs| == |b.pcs| && LinkInv(l, c, a, x)
    requires a.log <= b.log && b.pcs[2 * c + 1] == a.pcs[2 * c + 1]
    requires SyncInv(l.(sync := ch), c, b)
    ensures LinkInv(l.(sync := ch), c, b, x)
  {
  }

  lemma SyncListens(l: Link, c: nat, a: T.State, x: seq<Announcement>, server: Server)
    requires T.Inv(a) && OnlyGrants(a.log) && 2 * c + 1 < |a.pcs| && LinkInv(l, c, a, x) && l.sync.pc != Allocating
    ensures var r := Serve(l.sync, a, x, server, 2 * c);
            && LinkInv(l.(sync := r.channel), c, r.alloc, x)
            && OnlyGrants(r.alloc.log) && T.Inv(r.alloc) && r.announced == x
  {
    InitializeParameters(0);
    T.DoKeepsInv(a, 2 * c, T.BeginNew);
  }

  lemma SyncAllocates(l: Link, c: nat, a: T.State, x: seq<Announcement>, server: Server)
    requires T.Inv(a) && OnlyGrants(a.log) && 2 * c + 1 < |a.pcs| && LinkInv(l, c, a, x) && l.sync.pc == Allocating
    requires !a.pcs[2 * c].Returned?
    ensures var r := Serve(l.sync, a, x, server, 2 * c);
            && LinkInv(l.(sync := r.channel), c, r.alloc, x)
            && OnlyGrants(r.alloc.log) && T.Inv(r.alloc) && r.announced == x
  {
    var b := T.Do(a, 2 * c, T.Advance);
    T.DoKeepsInv(a, 2 * c, T.Advance);
    AllocatingStep(a, 2 * c, T.Advance);
    AllocFrame(a, 2 * c, T.Advance);
    AdvanceBeginsNothing(a, 2 * c);
    SyncChange(l, l.sync, c, a, b, x);
  }

  lemma AdvanceBeginsNothing(a: T.State, k: nat)
    requires T.Shaped(a) && k < |a.pcs|
    ensures T.Do(a, k, T.Advance).begun == a.begun
  {
  }

  /** Reading the result of session_new. */
  lemma ReturnChanges(ch: Channel, a: T.State, x: seq<Announcement>, server: Server, k: nat)
    requires T.Shaped(a) && k < |a.pcs| && ch.pc == Allocating && a.pcs[k].Returned?
    ensures var r := Serve(ch, a, x, server, k);
            && r.alloc == T.Do(a, k, T.Advance) == a.(pcs := a.pcs[k := T.Idle]) && r.announced == x
            && r.channel == Serve(ch, a, [], server, k).channel
  {
  }

  lemma SyncReplies(l: Link, c: nat, a: T.State, x: seq<Announcement>, server: Server)
    requires T.Inv(a) && OnlyGrants(a.log) && 2 * c + 1 < |a.pcs| && LinkInv(l, c, a, x) && l.sync.pc == Allocating
    requires a.pcs[2 * c].Returned?
    ensures var r := Serve(l.sync, a, x, server, 2 * c);
            && LinkInv(l.(sync := r.channel), c, r.alloc, x)
            && OnlyGrants(r.alloc.log) && T.Inv(r.alloc) && r.announced == x
  {
    var r := Serve(l.sync, a, x, server, 2 * c);
    ReturnChanges(l.sync, a, x, server, 2 * c);
    T.DoKeepsInv(a, 2 * c, T.Advance);
    ReplyKeepsSyncInv(l, c, a, server);
    SyncChange(l, r.channel, c, a, r.alloc, x);
  }

  lemma ReplyKeepsSyncInv(l: Link, c: nat, a: T.State, server: Server)
    requires T.Inv(a) && 2 * c + 1 < |a.pcs| && SyncInv(l, c, a) && l.sync.pc == Allocating
    requires a.pcs[2 * c].Returned?
    ensures SyncInv(l.(sync := Serve(l.sync, a, [], server, 2 * c).channel), c, T.Do(a, 2 * c, T.Advance))
  {
    var b := T.Do(a, 2 * c, T.Advance);
    assert b.log == a.log && b.begun == a.begun && b.pcs[2 * c] == T.Idle;
    if a.pcs[2 * c].result >= 0 {
      ReturnedIsGranted(a, c);
      InitializeParameters(a.pcs[2 * c].result);
    }
  }

  lemma SyncServeKeeps(l: Link, c: nat, a: T.State, x: seq<Announcement>, server: Server)
    requires T.Inv(a) && OnlyGrants(a.log) && 2 * c + 1 < |a.pcs| && LinkInv(l, c, a, x)
    ensures var r := Serve(l.sync, a, x, server, 2 * c);
            && LinkInv(l.(sync := r.channel), c, r.alloc, x)
            && OnlyGrants(r.alloc.log) && T.Inv(r.alloc) && r.announced == x
  {
    if l.sync.pc != Allocating {
      SyncListens(l, c, a, x, server);
    } else if a.pcs[2 * c].Returned? {
      SyncReplies(l, c, a, x, server);
    } else {
      SyncAllocates(l, c, a, x, server);
    }
  }

  lemma AsyncServeKeeps(l: Link, c: nat, a: T.State, x: seq<Announcement>, server: Server)
    requires T.Inv(a) && 2 * c + 1 < |a.pcs| && LinkInv(l, c, a, x)
    ensures var r := Serve(l.async, a, x, server, 2 * c + 1);
            && LinkInv(l.(async := r.channel), c, a, r.announced) && r.alloc == a
            && (r.announced == x ||
                exists p: u32 :: r.announced == x + [Announcement(2 * c + 1, p)] && Granted(a.log, c, p))
  {
    if l.async.pc == Listening && l.async.up != [] && |l.async.up[0].payload| <= server.limit {
      var p := l.async.up[0].parameter;
      assert Granted(a.log, c, p);
      assert Serve(l.async, a, x, server, 2 * c + 1).announced == x + [Announcement(2 * c + 1, p)];
    }
  }

  /** What a step on connection c leaves alone. */
  predicate Disturbs(s: State, s': State, c: nat)
    requires Shaped(s) && Shaped(s') && |s'.links| == |s.links|
  {
    && (forall d :: 0 <= d < |s.links| && d != c ==> s'.links[d] == s.links[d])
    && (forall j :: 0 <= j < |s.alloc.pcs| && j != 2 * c && j != 2 * c + 1 ==>
          s'.alloc.pcs[j] == s.alloc.pcs[j] && s'.alloc.begun[j] == s.alloc.begun[j])
    && s.alloc.log <= s'.alloc.log && s.announced <= s'.announced
  }

  lemma DoDisturbs(s: State, move: Move)
    requires Shaped(s)
    ensures Disturbs(s, Do(s, move), move.c)
  {
    if move.c < |s.links| {
      match move
      case ServerMove(c, async) =>
        ServeFrame(Side(s.links[c], async), s.alloc, s.announced, s.server, ThreadOf(c, async));
      case _ =>
    }
  }

  lemma OtherLinksKeep(s: State, s': State, c: nat, d: nat)
    requires Inv(s) && Shaped(s') && |s'.links| == |s.links| && Disturbs(s, s', c)
    requires d < |s.links| && d != c
    ensures LinkInv(s'.links[d], d, s'.alloc, s'.announced)
  {
    assert LinkInv(s.links[d], d, s.alloc, s.announced);
    LinkFrame(s.links[d], d, s.alloc, s'.alloc, s.announced, s'.announced);
  }

  /** What a step on connection c keeps there. */
  predicate Keeps(s: State, s': State, c: nat)
    requires Shaped(s) && Shaped(s') && c < |s.links| == |s'.links|
  {
    && LinkInv(s'.links[c], c, s'.alloc, s'.announced) && T.Inv(s'.alloc) && OnlyGrants(s'.alloc.log)
    && (s'.announced == s.announced ||
        exists p: u32 :: s'.announced == s.announced + [Announcement(2 * c + 1, p)] && Granted(s'.alloc.log, c, p))
  }

  lemma ClientKeeps(s: State, move: Move)
    requires Inv(s) && move.c < |s.links| && !move.ServerMove?
    ensures Keeps(s, Do(s, move), move.c)
  {
    assert LinkInv(s.links[move.c], move.c, s.alloc, s.announced);
    ClientStepKeepsLink(s.links[move.c], move.c, s.alloc, s.announced);
  }

  lemma SyncKeeps(s: State, c: nat)
    requires Inv(s) && c < |s.links| && !s.crashed
    ensures Keeps(s, Do(s, ServerMove(c, false)), c)
  {
    assert LinkInv(s.links[c], c, s.alloc, s.announced);
    SyncServeKeeps(s.links[c], c, s.alloc, s.announced, s.server);
  }

  lemma AsyncKeeps(s: State, c: nat)
    requires Inv(s) && c < |s.links| && !s.crashed
    ensures Keeps(s, Do(s, ServerMove(c, true)), c)
  {
    assert LinkInv(s.links[c], c, s.alloc, s.announced);
    AsyncServeKeeps(s.links[c], c, s.alloc, s.announced, s.server);
  }

  lemma GrantedGrows(a: seq<Event>, b: seq<Event>, c: nat, id: int)
    requires a <= b && Granted(a, c, id)
    ensures Granted(b, c, id)
  {
    var i :| 0 <= i < |a| && a[i] == Event(2 * c, NewCall, id);
    assert b[i] == a[i];
  }

  lemma AnnouncementsKeep(s: State, s': State, c: nat)
    requires Shaped(s) && AnnouncementsInv(s) && Shaped(s') && c < |s'.links| == |s.links|
    requires Disturbs(s, s', c) && Keeps(s, s', c)
    ensures AnnouncementsInv(s')
  {
    forall i | 0 <= i < |s'.announced|
      ensures s'.announced[i].channel % 2 == 1
      ensures Granted(s'.alloc.log, s'.announced[i].channel / 2, s'.announced[i].parameter)
    {
      if i < |s.announced| {
        assert s'.announced[i] == s.announced[i];
        GrantedGrows(s.alloc.log, s'.alloc.log, s.announced[i].channel / 2, s.announced[i].parameter);
      }
    }
  }

  lemma StepKeepsInv(s: State, s': State, c: nat)
    requires Inv(s) && Shaped(s') && c < |s'.links| == |s.links| && Disturbs(s, s', c) && Keeps(s, s', c)
    ensures Inv(s')
  {
    forall d | 0 <= d < |s.links| && d != c
      ensures LinkInv(s'.links[d], d, s'.alloc, s'.announced)
    {
      OtherLinksKeep(s, s', c, d);
    }
    AnnouncementsKeep(s, s', c);
  }

  lemma DoKeepsInv(s: State, move: Move)
    requires Inv(s)
    ensures Inv(Do(s, move))
  {
    if move.c < |s.links| && !(move.ServerMove? && s.crashed) {
      DoDisturbs(s, move);
      match move {
        case ServerMove(c, false) => SyncKeeps(s, c);
        case ServerMove(c, true) => AsyncKeeps(s, c);
        case _ => ClientKeeps(s, move);
      }
      StepKeepsInv(s, Do(s, move), move.c);
    }
  }

  lemma InitInv(names: seq<Name>, server: Server)
    ensures Inv(Init(names, server))
  {
    T.ReachableInv(2 * |names|, []);
  }

  lemma {:induction false} ExtendKeepsInv(s: State, moves: seq<Move>)
    requires Inv(s)
    ensures Inv(Extend(s, moves))
  {
    if moves != [] {
      ExtendKeepsInv(s, moves[..|moves| - 1]);
      DoKeepsInv(Extend(s, moves[..|moves| - 1]), moves[|moves| - 1]);
    }
  }

  lemma ReachableInv(names: seq<Name>, server: Server, schedule: seq<Move>)
    ensures Inv(Execute(names, server, schedule))
  {
    InitInv(names, server);
    ExtendKeepsInv(Init(names, server), schedule);
  }

  // ----- the theorems -----

  /** Without releases, a slot is granted at most once. */
  lemma GrantsAreUnique(log: seq<Event>, c: nat, d: nat, id: int)
    requires Faithful(log) && OnlyGrants(log) && 0 <= id && Granted(log, c, id) && Granted(log, d, id)
    ensures c == d
  {
    var i :| 0 <= i < |log| && log[i] == Event(2 * c, NewCall, id);
    var j :| 0 <= j < |log| && log[j] == Event(2 * d, NewCall, id);
    if i < j {
      NoDoubleGrant(log, i, j, id);
    } else if j < i {
      NoDoubleGrant(log, j, i, id);
    }
  }

  /** When hs_connect succeeds, the SessionID it stored is the slot the server allocated for this
      connection's own Initialize, which is the only allocation ever made for it, and the server has
      seen that same id in the AsyncInitialize on this connection's asynchronous channel. */
  lemma ConnectedIsAuthentic(names: seq<Name>, server: Server, schedule: seq<Move>, c: nat)
    requires c < |names| && Execute(names, server, schedule).links[c].client.Connected?
    ensures var s := Execute(names, server, schedule);
            var id := s.links[c].client.id;
            && Faithful(s.alloc.log)
            && Granted(s.alloc.log, c, id) && T.EventsOf(s.alloc.log, 2 * c) <= 1
            && Announcement(2 * c + 1, id) in s.announced
            && (forall i :: 0 <= i < |s.announced| && s.announced[i].channel == 2 * c + 1 ==>
                  s.announced[i].parameter == id)
  {
    ReachableInv(names, server, schedule);
    var s := Execute(names, server, schedule);
    var id := s.links[c].client.id;
    assert LinkInv(s.links[c], c, s.alloc, s.announced);
    assert T.ThreadInv(s.alloc, 2 * c);
    forall i | 0 <= i < |s.announced| && s.announced[i].channel == 2 * c + 1
      ensures s.announced[i].parameter == id
    {
      SingleEvent(s.alloc.log, Event(2 * c, NewCall, id), Event(2 * c, NewCall, s.announced[i].parameter));
    }
  }

  lemma {:induction false} EventCounts(log: seq<Event>, e: Event)
    requires e in log
    ensures T.EventsOf(log, e.thread) >= 1
  {
    var past := log[..|log| - 1];
    if log[|log| - 1] != e {
      assert log == past + [log[|log| - 1]];
      EventCounts(past, e);
    }
  }

  lemma {:induction false} SingleEvent(log: seq<Event>, e: Event, f: Event)
    requires e in log && f in log && e.thread == f.thread && T.EventsOf(log, e.thread) <= 1
    ensures e == f
  {
    var past, last := log[..|log| - 1], log[|log| - 1];
    assert log == past + [last];
    if last.thread != e.thread {
      SingleEvent(past, e, f);
    } else if e != last {
      EventCounts(past, e);
    } else if f != last {
      EventCounts(past, f);
    }
  }

  /** The history of the allocator only grows. */
  lemma {:induction false} HistoryGrows(s: State, moves: seq<Move>)
    requires Shaped(s)
    ensures s.alloc.log <= Extend(s, moves).alloc.log
  {
    if moves != [] {
      HistoryGrows(s, moves[..|moves| - 1]);
      DoDisturbs(Extend(s, moves[..|moves| - 1]), moves[|moves| - 1]);
    }
  }

  /** A SessionID belongs to one client for the whole life of the server, session_free never being called:
      whoever holds one at any time and whoever holds the same one then or later are the same client. */
  lemma SessionIdsAreExclusive(names: seq<Name>, server: Server, a: seq<Move>, b: seq<Move>, c: nat, d: nat)
    requires c < |names| && d < |names|
    requires var s, s' := Execute(names, server, a), Execute(names, server, a + b);
             && HasId(s.links[c].client) && HasId(s'.links[d].client)
             && s.links[c].client.id == s'.links[d].client.id
    ensures c == d
  {
    var s, s' := Execute(names, server, a), Execute(names, server, a + b);
    ReachableInv(names, server, a);
    ReachableInv(names, server, a + b);
    ExtendAppend(Init(names, server), a, b);
    HistoryGrows(s, b);
    assert LinkInv(s.links[c], c, s.alloc, s.announced);
    assert LinkInv(s'.links[d], d, s'.alloc, s'.announced);
    GrantsAreUnique(s'.alloc.log, c, d, s.links[c].client.id);
  }

  /** Every AsyncInitialize the server ever sees names the slot it granted to that connection. */
  lemma AnnouncementsAreAuthentic(names: seq<Name>, server: Server, schedule: seq<Move>, a: Announcement)
    requires a in Execute(names, server, schedule).announced
    ensures a.channel % 2 == 1 && Granted(Execute(names, server, schedule).alloc.log, a.channel / 2, a.parameter)
  {
    ReachableInv(names, server, schedule);
  }

  /** The connections that the server has given a slot. */
  function Grantees(log: seq<Event>): set<nat> {
    set i | 0 <= i < |log| && log[i].call == NewCall && log[i].result >= 0 :: log[i].thread / 2
  }

  lemma {:induction false} GranteesAtMostGrants(log: seq<Event>)
    ensures |Grantees(log)| <= Grants(log)
  {
    if log != [] {
      var past, e := log[..|log| - 1], log[|log| - 1];
      GranteesAtMostGrants(past);
      var more: set<nat> := if e.call == NewCall && e.result >= 0 then {e.thread / 2} else {};
      assert Grantees(log) == Grantees(past) + more;
    }
  }

  lemma {:induction false} NothingReleased(log: seq<Event>)
    requires OnlyGrants(log)
    ensures Releases(log) == 0
  {
    if log != [] {
      NothingReleased(log[..|log| - 1]);
    }
  }

  lemma GrantedIsGrantee(log: seq<Event>, c: nat, id: nat)
    requires Granted(log, c, id)
    ensures c in Grantees(log)
  {
    var i :| 0 <= i < |log| && log[i] == Event(2 * c, NewCall, id);
  }

  /** Over a server's whole life at most 256 connections are given a slot, whatever became of their clients
      afterwards; and only their clients ever hold a SessionID. */
  lemma ServerCapacity(names: seq<Name>, server: Server, schedule: seq<Move>)
    ensures var s := Execute(names, server, schedule);
            && |Grantees(s.alloc.log)| <= Grants(s.alloc.log) <= MAX_SESSIONS
            && forall c :: 0 <= c < |names| && HasId(s.links[c].client) ==> c in Grantees(s.alloc.log)
  {
    ReachableInv(names, server, schedule);
    var s := Execute(names, server, schedule);
    GranteesAtMostGrants(s.alloc.log);
    NothingReleased(s.alloc.log);
    Conservation(s.alloc.log);
    forall c | 0 <= c < |names| && HasId(s.links[c].client)
      ensures c in Grantees(s.alloc.log)
    {
      assert LinkInv(s.links[c], c, s.alloc, s.announced);
      GrantedIsGrantee(s.alloc.log, c, s.links[c].client.id);
    }
  }

  lemma {:induction false} LaterGrant(log: seq<Event>, n: nat, i: nat)
    requires n <= i < |log| && log[i].call == NewCall && log[i].result >= 0
    ensures Grants(log) > Grants(log[..n])
    decreases |log|
  {
    var past := log[..|log| - 1];
    assert n <= |past| && past[..n] == log[..n];
    if i < |past| {
      LaterGrant(past, n, i);
    } else {
      GrantsGrow(past, n);
    }
  }

  lemma {:induction false} GrantsGrow(log: seq<Event>, n: nat)
    requires n <= |log|
    ensures Grants(log) >= Grants(log[..n])
    decreases |log|
  {
    if n == |log| {
      assert log[..n] == log;
    } else {
      GrantsGrow(log[..|log| - 1], n);
      assert log[..|log| - 1][..n] == log[..n];
    }
  }

  /** Once 256 slots have been given out, a client that has none by then never gets a SessionID, in no
      continuation: abandoned connections keep their slots. */
  lemma FullForever(names: seq<Name>, server: Server, a: seq<Move>, b: seq<Move>, c: nat)
    requires c < |names| && Grants(Execute(names, server, a).alloc.log) == MAX_SESSIONS
    requires c !in Grantees(Execute(names, server, a).alloc.log)
    ensures !HasId(Execute(names, server, a + b).links[c].client)
  {
    var s, s' := Execute(names, server, a), Execute(names, server, a + b);
    ExtendAppend(Init(names, server), a, b);
    HistoryGrows(s, b);
    ServerCapacity(names, server, a + b);
    if HasId(s'.links[c].client) {
      var log := s'.alloc.log;
      assert log[..|s.alloc.log|] == s.alloc.log;
      var i :| 0 <= i < |log| && log[i].call == NewCall && log[i].result >= 0 && log[i].thread / 2 == c;
      if i >= |s.alloc.log| {
        LaterGrant(log, |s.alloc.log|, i);
      }
    }
  }

  // ----- progress -----

  /** The allocating thread of connection c running alone. */
  lemma {:induction false} SoloAllocation(s: State, before: seq<Move>, c: nat, n: nat) returns (moves: seq<Move>)
    requires Shaped(s)
    requires var x := Extend(s, before);
             && c < |x.links| && x.links[c].sync.pc == Allocating && !x.crashed
             && forall j :: 0 <= j < n ==> !T.Solo(x.alloc, 2 * c, j).pcs[2 * c].Returned?
    ensures var x := Extend(s, before);
            Extend(s, moves) == x.(alloc := T.Solo(x.alloc, 2 * c, n))
  {
    var x := Extend(s, before);
    if n == 0 {
      moves := before;
    } else {
      var past := SoloAllocation(s, before, c, n - 1);
      moves := past + [ServerMove(c, false)];
      ExtendSnoc(s, past, ServerMove(c, false));
      assert x.links[c := x.links[c].(sync := x.links[c].sync)] == x.links;
    }
  }

  /** A connection that nobody has used yet has nothing under way. */
  lemma NothingUnderWay(s: State, c: nat)
    requires Inv(s) && c < |s.links| && s.links[c].client == Start
    ensures s.links[c].sync.up == [] && s.links[c].sync.down == []
    ensures s.links[c].async.up == [] && s.links[c].async.down == []
  {
    var l := s.links[c];
    assert LinkInv(l, c, s.alloc, s.announced);
    assert T.ThreadInv(s.alloc, 2 * c);
    if l.sync.down != [] {
      EventCounts(s.alloc.log, Event(2 * c, NewCall, l.sync.down[0].parameter % TWO_16));
    }
  }

  /** A client that can still be served: not started, its threads listening, the mutex free, a slot left. */
  predicate Ready(s: State, c: nat)
    requires Shaped(s)
  {
    && c < |s.links| && s.links[c].client == Start
    && s.links[c].sync.pc == Listening && s.links[c].async.pc == Listening
    && !s.crashed && s.alloc.mutex == Framing.None && LowestFree(s.alloc.table.taken) < MAX_SESSIONS
  }

  /** The exchange of a ready client up to the return of session_new, nobody else moving. */
  lemma ReachReturn(s: State, c: nat) returns (moves: seq<Move>)
    requires Inv(s) && Ready(s, c) && |s.links[c].subaddress| <= s.server.limit
    ensures var x, l := Extend(s, moves), s.links[c];
            var id := LowestFree(s.alloc.table.taken);
            && x.alloc.pcs[2 * c] == T.Returned(NewCall, id) && !x.crashed && x.server == s.server
            && x.links[c] == l.(client := AwaitInitialize,
                                sync := Channel([], [], Allocating, l.sync.held || l.subaddress != []))
  {
    NothingUnderWay(s, c);
    assert LinkInv(s.links[c], c, s.alloc, s.announced);
    InitializeParameters(LowestFree(s.alloc.table.taken));
    moves := [ClientMove(c)];
    ExtendSnoc(s, [], ClientMove(c));
    assert [] + [ClientMove(c)] == moves;
    ExtendSnoc(s, moves, ServerMove(c, false));
    moves := moves + [ServerMove(c, false)];
    var x := Extend(s, moves);
    var n := T.SoloNew(x.alloc, 2 * c);
    moves := SoloAllocation(s, moves, c, n);
  }

  /** From every reachable state in which the server is up, the mutex free and a slot left, a client that
      has not started yet and has a name that the server can serve can still connect, by moves of its own
      connection alone: nothing that other clients and threads have done blocks it. */
  lemma CanStillConnect(names: seq<Name>, server: Server, schedule: seq<Move>, c: nat)
    returns (moves: seq<Move>)
    requires Ready(Execute(names, server, schedule), c) && Servable(names[c], server)
    ensures var s := Execute(names, server, schedule);
            Extend(s, moves).links[c].client == Connected(LowestFree(s.alloc.table.taken))
  {
    ReachableInv(names, server, schedule);
    ReachableNames(names, server, schedule);
    var s := Execute(names, server, schedule);
    NothingUnderWay(s, c);
    moves := ReachReturn(s, c);
    moves := FinishConnecting(s, moves, c, LowestFree(s.alloc.table.taken));
  }

  lemma ClientMoves(s: State, before: seq<Move>, c: nat)
    requires Shaped(s) && c < |s.links|
    ensures Extend(s, before + [ClientMove(c)]).links[c] == ClientStep(Extend(s, before).links[c])
    ensures Extend(s, before + [ClientMove(c)]).crashed == Extend(s, before).crashed
  {
    ExtendSnoc(s, before, ClientMove(c));
  }

  lemma ServeReturned(ch: Channel, alloc: T.State, announced: seq<Announcement>, server: Server, k: nat, id: nat)
    requires T.Shaped(alloc) && k < |alloc.pcs| && id < MAX_SESSIONS
    requires ch.pc == Allocating && alloc.pcs[k] == T.Returned(NewCall, id)
    ensures var m := Message(INITIALIZE_RESPONSE, CC_PREFER_SYNC, HISLIP_VERSION * TWO_16 + id, []);
            var r := Serve(ch, alloc, announced, server, k);
            && (r.crashed <==> server.registered && !ch.held)
            && (!r.crashed ==> r.channel == ch.(down := ch.down + [m], pc := Listening))
  {
  }

  /** The server's thread answers the Initialize with the slot it was given, or crashes. */
  lemma ServerAnswers(s: State, before: seq<Move>, c: nat, id: nat)
    requires Shaped(s) && id < MAX_SESSIONS && c < |s.links|
    requires var x := Extend(s, before);
             x.links[c].sync.pc == Allocating && x.alloc.pcs[2 * c] == T.Returned(NewCall, id) && !x.crashed
    ensures var x, y := Extend(s, before), Extend(s, before + [ServerMove(c, false)]);
            var l := x.links[c];
            var m := Message(INITIALIZE_RESPONSE, CC_PREFER_SYNC, HISLIP_VERSION * TWO_16 + id, []);
            && (y.crashed <==> x.server.registered && !l.sync.held)
            && (!y.crashed ==>
                  y.links[c] == l.(sync := l.sync.(down := l.sync.down + [m], pc := Listening)))
  {
    ExtendSnoc(s, before, ServerMove(c, false));
    var x := Extend(s, before);
    ServeReturned(x.links[c].sync, x.alloc, x.announced, x.server, 2 * c, id);
  }

  lemma ServerAnswersAsync(s: State, before: seq<Move>, c: nat, id: u16)
    requires Shaped(s) && c < |s.links| && !Extend(s, before).crashed
    requires var ch := Extend(s, before).links[c].async;
             ch.up == [Message(ASYNC_INITIALIZE, 0, id, [])] && ch.down == [] && ch.pc == Listening
    ensures var l := Extend(s, before).links[c];
            Extend(s, before + [ServerMove(c, true)]).links[c] ==
            l.(async := l.async.(up := [], down := [Message(ASYNC_INITIALIZE_RESPONSE, 0, HISLIP_VENDOR_ID, [])]))
  {
    ExtendSnoc(s, before, ServerMove(c, true));
  }

  lemma ClientAnnounces(s: State, before: seq<Move>, c: nat, id: u16)
    requires Shaped(s) && c < |s.links| && Extend(s, before).links[c].client == GotId(id)
    requires Extend(s, before).links[c].async.up == []
    ensures var l := Extend(s, before).links[c];
            var announced := l.async.(up := [Message(ASYNC_INITIALIZE, 0, id, [])]);
            Extend(s, before + [ClientMove(c)]).links[c] == l.(client := AwaitAsync(id), async := announced)
    ensures Extend(s, before + [ClientMove(c)]).crashed == Extend(s, before).crashed
  {
    ClientMoves(s, before, c);
  }

  lemma ClientTakesReply(s: State, before: seq<Move>, c: nat, id: u16)
    requires Shaped(s) && c < |s.links| && Extend(s, before).links[c].client == AwaitAsync(id)
    requires Extend(s, before).links[c].async.down == [Message(ASYNC_INITIALIZE_RESPONSE, 0, HISLIP_VENDOR_ID, [])]
    ensures Extend(s, before + [ClientMove(c)]).links[c].client == Connected(id)
  {
    ClientMoves(s, before, c);
  }

  /** From the SessionID to the end of hs_connect. */
  lemma FinishAsync(s: State, before: seq<Move>, c: nat, id: u16) returns (moves: seq<Move>)
    requires Shaped(s) && c < |s.links| && !Extend(s, before).crashed
    requires var l := Extend(s, before).links[c];
             l.client == GotId(id) && l.async.up == [] && l.async.down == [] && l.async.pc == Listening
    ensures Extend(s, moves).links[c].client == Connected(id)
  {
    ClientAnnounces(s, before, c, id);
    var m1 := before + [ClientMove(c)];
    ServerAnswersAsync(s, m1, c, id);
    var m2 := m1 + [ServerMove(c, true)];
    ClientTakesReply(s, m2, c, id);
    moves := m2 + [ClientMove(c)];
  }

  /** The rest of the exchange once session_new has returned. */
  lemma FinishConnecting(s: State, before: seq<Move>, c: nat, id: nat) returns (moves: seq<Move>)
    requires Shaped(s) && id < MAX_SESSIONS && c < |s.links|
    requires var x := Extend(s, before);
             && x.links[c].client == AwaitInitialize && x.links[c].sync.pc == Allocating
             && x.links[c].sync.down == [] && x.links[c].async.up == [] && x.links[c].async.down == []
             && x.links[c].async.pc == Listening
             && x.alloc.pcs[2 * c] == T.Returned(NewCall, id)
             && !x.crashed && (x.server.registered ==> x.links[c].sync.held)
    ensures Extend(s, moves).links[c].client == Connected(id)
  {
    InitializeParameters(id);
    ServerAnswers(s, before, c, id);
    var answered := before + [ServerMove(c, false)];
    ClientMoves(s, answered, c);
    moves := FinishAsync(s, answered + [ClientMove(c)], c, id);
  }

  // ----- names that the server cannot serve -----

  /** What a client's name means for its connection: without one the server's thread never sees a payload, and
      one that is too long is dropped with its frame. */
  predicate NameInv(l: Link, server: Server) {
    && (forall i :: 0 <= i < |l.sync.up| ==> l.sync.up[i].payload == l.subaddress)
    && (l.sync.held ==> l.subaddress != [] && |l.subaddress| <= server.limit)
    && (l.sync.pc == Allocating ==> |l.subaddress| <= server.limit && (l.sync.held || l.subaddress == []))
    && (!Servable(l.subaddress, server) ==> l.sync.down == [] && !HasId(l.client))
  }

  /** The names are those of the clients, and a crash has a client without one behind it. */
  predicate Names(s: State, names: seq<Name>, server: Server) {
    && |s.links| == |names| && s.server == server
    && (forall c :: 0 <= c < |names| ==> s.links[c].subaddress == names[c] && NameInv(s.links[c], server))
    && (s.crashed ==> server.registered && [] in names)
  }

  lemma ServeKeepsNames(l: Link, a: T.State, x: seq<Announcement>, server: Server, k: nat)
    requires T.Shaped(a) && k < |a.pcs| && NameInv(l, server)
    requires forall i :: 0 <= i < |l.sync.up| ==> l.sync.up[i].kind == INITIALIZE
    ensures var r := Serve(l.sync, a, x, server, k);
            NameInv(l.(sync := r.channel), server) && (r.crashed ==> server.registered && l.subaddress == [])
  {
  }

  lemma OwnNameKeeps(s: State, move: Move, names: seq<Name>, server: Server)
    requires Inv(s) && Names(s, names, server) && move.c < |s.links|
    ensures var s', l := Do(s, move), s.links[move.c];
            && NameInv(s'.links[move.c], server) && s'.links[move.c].subaddress == l.subaddress
            && s'.server == server && (s'.crashed && !s.crashed ==> server.registered && l.subaddress == [])
  {
    var l := s.links[move.c];
    assert LinkInv(l, move.c, s.alloc, s.announced);
    assert NameInv(l, server);
    match move
    case ClientMove(c) => assert NameInv(ClientStep(l), server);
    case ClientGivesUp(c) =>
    case ServerMove(c, false) => ServeKeepsNames(l, s.alloc, s.announced, server, 2 * c);
    case ServerMove(c, true) => AsyncNeverCrashes(l.async, s.alloc, s.announced, server, 2 * c + 1);
  }

  lemma AsyncNeverCrashes(ch: Channel, a: T.State, x: seq<Announcement>, server: Server, k: nat)
    requires T.Shaped(a) && k < |a.pcs| && ch.pc != Allocating
    ensures !Serve(ch, a, x, server, k).crashed
  {
  }

  lemma DoKeepsNames(s: State, move: Move, names: seq<Name>, server: Server)
    requires Inv(s) && Names(s, names, server)
    ensures Names(Do(s, move), names, server)
  {
    var s' := Do(s, move);
    if move.c < |s.links| {
      OwnNameKeeps(s, move, names, server);
      DoDisturbs(s, move);
      assert s.links[move.c].subaddress == names[move.c];
      forall c | 0 <= c < |names|
        ensures s'.links[c].subaddress == names[c] && NameInv(s'.links[c], server)
      {
        assert c != move.c ==> s'.links[c] == s.links[c];
      }
    }
  }

  lemma {:induction false} ReachableNames(names: seq<Name>, server: Server, schedule: seq<Move>)
    ensures Names(Execute(names, server, schedule), names, server)
  {
    if schedule != [] {
      var past := schedule[..|schedule| - 1];
      ReachableNames(names, server, past);
      ReachableInv(names, server, past);
      DoKeepsNames(Execute(names, server, past), schedule[|schedule| - 1], names, server);
    }
  }

  /** A client with a name that the server cannot serve never gets a SessionID, under any schedule. */
  lemma UnservableNeverConnects(names: seq<Name>, server: Server, schedule: seq<Move>, c: nat)
    requires c < |names| && !Servable(names[c], server)
    ensures !HasId(Execute(names, server, schedule).links[c].client)
  {
    ReachableNames(names, server, schedule);
    assert NameInv(Execute(names, server, schedule).links[c], server);
  }

  /** A ready client can be connected, by any moves of anybody, exactly if the server can serve its name. */
  lemma ConnectableExact(names: seq<Name>, server: Server, schedule: seq<Move>, c: nat)
    requires Ready(Execute(names, server, schedule), c)
    ensures var s := Execute(names, server, schedule);
            (exists moves: seq<Move> :: Extend(s, moves).links[c].client.Connected?) <==> Servable(names[c], server)
  {
    var s := Execute(names, server, schedule);
    if Servable(names[c], server) {
      var moves := CanStillConnect(names, server, schedule, c);
      assert Extend(s, moves).links[c].client.Connected?;
    } else {
      forall moves: seq<Move>
        ensures !Extend(s, moves).links[c].client.Connected?
      {
        ExtendAppend(Init(names, server), schedule, moves);
        UnservableNeverConnects(names, server, schedule + moves, c);
      }
    }
  }

  /** The server can be made to crash exactly if a subaddress is registered and some client names none. */
  lemma CrashExact(names: seq<Name>, server: Server)
    ensures (exists schedule: seq<Move> :: Execute(names, server, schedule).crashed) <==>
            server.registered && [] in names
  {
    if server.registered && [] in names {
      var c :| 0 <= c < |names| && names[c] == [];
      var s := Init(names, server);
      InitInv(names, server);
      LowestFreeUnique(s.alloc.table.taken, 0);
      var moves := ReachReturn(s, c);
      ServerAnswers(s, moves, c, 0);
      assert Execute(names, server, moves + [ServerMove(c, false)]).crashed;
    }
    forall schedule: seq<Move>
      ensures Execute(names, server, schedule).crashed ==> server.registered && [] in names
    {
      ReachableNames(names, server, schedule);
    }
  }

  lemma {:induction false} DeadServer(s: State, moves: seq<Move>)
    requires Shaped(s) && s.crashed
    ensures Extend(s, moves).crashed && Extend(s, moves).alloc == s.alloc
  {
    if moves != [] {
      DeadServer(s, moves[..|moves| - 1]);
    }
  }

  /** And the crash is everybody's: a client without a slot by then never gets a SessionID. */
  lemma CrashStopsAll(names: seq<Name>, server: Server, a: seq<Move>, b: seq<Move>, c: nat)
    requires c < |names| && Execute(names, server, a).crashed
    requires c !in Grantees(Execute(names, server, a).alloc.log)
    ensures !HasId(Execute(names, server, a + b).links[c].client)
  {
    ExtendAppend(Init(names, server), a, b);
    DeadServer(Execute(names, server, a), b);
    ServerCapacity(names, server, a + b);
  }
}
