/** A client session from hs_connect to hs_disconnect: what its calls do to the two sockets in between, and
    how often each gets closed. */
module Lifetime {
  import opened ByteOrder
  import opened Transport
  import opened Message
  import opened Framing
  import opened Segmentation
  import opened Sessions
  import opened Connect
  import C = Client

  /** A call between the two: hs_sync_send, hs_sync_receive, hs_set_maximum_message_size. */
  datatype Action = Send(data: Payload) | Receiving(cap: nat) | Negotiate(size: u64, beyond: seq<byte>)

  predicate Possible(a: Action) {
    (a.Receiving? ==> a.cap <= MAX_WIRE_SIZE - MSG_HEADER_SIZE) && (a.Negotiate? ==> |a.beyond| == 8)
  }

  /** What closing depends on: both streams, what the asynchronous socket accepts, and whether a receive on
      either has met the end of its stream. */
  datatype Streams = Streams(sync: Wire, syncEnded: bool, async: Wire, out: Outbox, asyncEnded: bool)

  /** A receive on this stream meets its end. */
  predicate MeetsEnd(w: Wire, cap: nat) {
    var a := Assemble(w, cap); a.Broken? && a.eof
  }

  /** The streams after a call. A call on a descriptor that has been closed fails before it moves a byte. */
  function After(s: Streams, a: Action): Streams {
    match a
    case Send(_) => s
    case Receiving(cap) =>
      if s.syncEnded then s else s.(sync := Assemble(s.sync, cap).rest, syncEnded := MeetsEnd(s.sync, cap))
    case Negotiate(size, _) =>
      if s.asyncEnded then s
      else
        var accepted := AfterWrite(s.out, Encode(C.SizeRequest(size)));
        if WriteCount(s.out, Encode(C.SizeRequest(size))) == -1 then s.(out := accepted)
        else
          var reply := Receive(s.async, 8);
          s.(async := reply.rest, out := accepted, asyncEnded := reply.Closed?)
  }

  function AfterAll(s: Streams, actions: seq<Action>): Streams {
    if actions == [] then s else After(AfterAll(s, actions[..|actions| - 1]), actions[|actions| - 1])
  }

  /** This call, made now, is a negotiation whose request goes out and whose reply meets the end of its stream. */
  predicate ReplyEnds(s: Streams, a: Action) {
    a.Negotiate? && WriteCount(s.out, Encode(C.SizeRequest(a.size))) >= 0 && Receive(s.async, 8).Closed?
  }

  /** Some hs_sync_receive among the calls meets the end of the synchronous stream. */
  predicate SyncEnds(s: Streams, actions: seq<Action>) {
    actions != [] &&
    var past, a := actions[..|actions| - 1], actions[|actions| - 1];
    SyncEnds(s, past) || (a.Receiving? && MeetsEnd(AfterAll(s, past).sync, a.cap))
  }

  /** Some negotiation among the calls meets the end of the asynchronous stream. */
  predicate AsyncEnds(s: Streams, actions: seq<Action>) {
    actions != [] &&
    var past, a := actions[..|actions| - 1], actions[|actions| - 1];
    AsyncEnds(s, past) || ReplyEnds(AfterAll(s, past), a)
  }

  lemma AfterEnds(s: Streams, a: Action)
    ensures After(s, a).syncEnded <==> s.syncEnded || (a.Receiving? && MeetsEnd(s.sync, a.cap))
    ensures After(s, a).asyncEnded <==> s.asyncEnded || ReplyEnds(s, a)
  {
  }

  /** A stream has ended exactly if some receive on it met its end. */
  lemma {:induction false} EndedExactly(s: Streams, actions: seq<Action>)
    requires !s.syncEnded && !s.asyncEnded
    ensures AfterAll(s, actions).syncEnded <==> SyncEnds(s, actions)
    ensures AfterAll(s, actions).asyncEnded <==> AsyncEnds(s, actions)
  {
    if actions != [] {
      var past := actions[..|actions| - 1];
      EndedExactly(s, past);
      AfterEnds(AfterAll(s, past), actions[|actions| - 1]);
    }
  }

  /** The streams that a successful hs_connect leaves. */
  function Begin(subaddress: Option<Name>, sync: Dial, async: Dial, id: u16): Streams
    requires FitsInt(InitializeMessage(subaddress)) && sync.Opens? && async.Opens?
  {
    Streams(Heard(sync, InitializeMessage(subaddress)), false, Heard(async, AsyncInitializeMessage(id)),
            AfterWrite(Outbox([], async.plan), Encode(AsyncInitializeMessage(id))), false)
  }

  /** The slot and its sockets stand as the streams say; `resets` is whether a closed descriptor is reset. */
  predicate Stands(table: SessionTable, device: nat, sync: Socket, async: Socket, s: Streams, resets: bool)
    requires table.Valid() && device < MAX_SESSIONS
    reads table, table.slots, sync, async
  {
    && sync != async && table.slots[device].taken
    && table.slots[device].socketSync == (if resets && s.syncEnded then null else sync)
    && table.slots[device].socketAsync == (if resets && s.asyncEnded then null else async)
    && sync.closed == (if s.syncEnded then 1 else 0) && async.closed == (if s.asyncEnded then 1 else 0)
    && (!s.syncEnded ==> sync.wire == s.sync)
    && (!s.asyncEnded ==> async.wire == s.async && async.out == s.out)
  }

  /** hs_sync_receive on the session's socket; repaired, it also forgets a descriptor that was closed. */
  method DoReceive(table: SessionTable, device: nat, cap: nat, sync: Socket, async: Socket, ghost s: Streams,
                   resets: bool)
    requires table.Valid() && device < MAX_SESSIONS && Stands(table, device, sync, async, s, resets)
    requires cap <= MAX_WIRE_SIZE - MSG_HEADER_SIZE
    modifies table.slots, sync
    ensures Stands(table, device, sync, async, After(s, Receiving(cap)), resets)
    ensures table.View() == old(table.View())
  {
    if sync.closed == 0 {
      var _, _ := C.SyncReceive(table, device, cap);
      if resets && sync.closed > 0 {
        UpdateView(table.slots[..], device, table.slots[device].(socketSync := null), table.next);
        table.slots[device] := table.slots[device].(socketSync := null);
      }
    }
  }

  method DoNegotiate(table: SessionTable, device: nat, size: u64, beyond: seq<byte>, sync: Socket, async: Socket,
                     ghost s: Streams, resets: bool)
    requires table.Valid() && device < MAX_SESSIONS && Stands(table, device, sync, async, s, resets) && |beyond| == 8
    modifies table.slots, async
    ensures Stands(table, device, sync, async, After(s, Negotiate(size, beyond)), resets)
    ensures table.View() == old(table.View())
  {
    if async.closed == 0 {
      var r := C.SetMaximumMessageSize(table, device, size, beyond);
      UpdateView(old(table.slots[..]), device, table.slots[device], table.next);
      if resets && async.closed > 0 {
        UpdateView(table.slots[..], device, table.slots[device].(socketAsync := null), table.next);
        table.slots[device] := table.slots[device].(socketAsync := null);
      }
    }
  }

  method DoSend(table: SessionTable, device: nat, data: Payload, sync: Socket, async: Socket, ghost s: Streams,
                resets: bool)
    requires table.Valid() && device < MAX_SESSIONS && Stands(table, device, sync, async, s, resets)
    modifies table.slots, sync`out
    ensures Stands(table, device, sync, async, s, resets)
    ensures table.View() == old(table.View())
  {
    if sync.closed == 0 {
      var _ := C.SyncSend(table, device, data, |data|);
      UpdateView(old(table.slots[..]), device, table.slots[device], table.next);
    }
  }

  /** Everything between hs_connect and hs_disconnect. */
  method Perform(table: SessionTable, device: nat, actions: seq<Action>, sync: Socket, async: Socket,
                 ghost s: Streams, resets: bool)
    requires table.Valid() && device < MAX_SESSIONS && Stands(table, device, sync, async, s, resets)
    requires forall i :: 0 <= i < |actions| ==> Possible(actions[i])
    modifies table.slots, sync, async
    ensures Stands(table, device, sync, async, AfterAll(s, actions), resets)
    ensures table.View() == old(table.View())
  {
    assert actions[..0] == [];
    for i := 0 to |actions|
      invariant Stands(table, device, sync, async, AfterAll(s, actions[..i]), resets)
      invariant table.View() == old(table.View())
    {
      ghost var now := AfterAll(s, actions[..i]);
      assert actions[..i + 1][..i] == actions[..i];
      match actions[i] {
        case Send(data) => DoSend(table, device, data, sync, async, now, resets);
        case Receiving(cap) => DoReceive(table, device, cap, sync, async, now, resets);
        case Negotiate(size, beyond) => DoNegotiate(table, device, size, beyond, sync, async, now, resets);
      }
    }
    assert actions[..|actions|] == actions;
  }

  /** The resource ledger of a whole session: hs_connect (repaired), if it succeeds any calls, and
      hs_disconnect. Every socket opened has been closed once, and a second time if a receive on it met the
      end of its stream, because hs_disconnect trusts the stored descriptor; with the descriptor reset,
      exactly once in every case. The same slots are taken as before. */
  method WholeSession(table: SessionTable, subaddress: Option<Name>, dialSync: Dial, dialAsync: Dial,
                      actions: seq<Action>, resets: bool)
    returns (sync: Socket?, async: Socket?)
    requires table.Valid() && FitsInt(InitializeMessage(subaddress))
    requires forall i :: 0 <= i < |actions| ==> Possible(actions[i])
    modifies table`next, table.slots
    ensures var r := RouteOf(old(table.View()), subaddress, dialSync, dialAsync);
            && (sync != null <==> OpensSync(r)) && (async != null <==> OpensAsync(r))
            && (sync != null ==> fresh(sync)) && (async != null ==> fresh(async))
            && if r.Done? && dialSync.Opens? && dialAsync.Opens? then
                 var s := Begin(subaddress, dialSync, dialAsync, r.id);
                 && sync.closed == (if SyncEnds(s, actions) && !resets then 2 else 1)
                 && async.closed == (if AsyncEnds(s, actions) && !resets then 2 else 1)
               else
                 (sync != null ==> sync.closed == 1) && (async != null ==> async.closed == 1)
    ensures table.View().taken == old(table.View()).taken
  {
    var device, route;
    device, route, sync, async := HsConnectRepaired(table, subaddress, dialSync, dialAsync);
    SettlesTaken(old(table.View()), route);
    if route.Done? {
      ghost var s := Begin(subaddress, dialSync, dialAsync, route.id);
      EndedExactly(s, actions);
      Perform(table, device, actions, sync, async, s, resets);
      var _ := HsDisconnect(table, device);
    }
  }

  lemma EmptyEnds(w: Wire, cap: nat)
    requires w.bytes == [] && Steady(w.plan)
    ensures MeetsEnd(w, cap) && Receive(w, cap).Closed?
  {
    assert Receive(w, cap).Closed? by {
      SteadyFetchMeaning(w, MSG_HEADER_SIZE);
    }
  }

  /** Peers that answer hs_connect and hang up: the first receive on either socket meets the end of its
      stream, so that hs_disconnect as written closes that socket a second time. */
  lemma HangingUp(subaddress: Option<Name>, id: u16, cap: nat)
    requires FitsInt(InitializeMessage(subaddress))
    ensures var s := Begin(subaddress, AnswersInitialize(id), AnswersAsync(), id);
            SyncEnds(s, [Receiving(cap)]) && AsyncEnds(s, [Negotiate(256, seq(8, _ => 0))])
  {
    var s := Begin(subaddress, AnswersInitialize(id), AnswersAsync(), id);
    assert MeetsEnd(s.sync, cap) by {
      HeardOut(Message(INITIALIZE_RESPONSE, 0, id, []), InitializeMessage(subaddress));
      EmptyEnds(s.sync, cap);
    }
    var a := Negotiate(256, seq(8, _ => 0));
    assert ReplyEnds(s, a) by {
      HeardOut(Message(ASYNC_INITIALIZE_RESPONSE, 0, 0, []), AsyncInitializeMessage(id));
      EmptyEnds(s.async, 8);
    }
    FirstCall(s, Receiving(cap));
    FirstCall(s, a);
  }

  lemma FirstCall(s: Streams, a: Action)
    ensures SyncEnds(s, [a]) <==> a.Receiving? && MeetsEnd(s.sync, a.cap)
    ensures AsyncEnds(s, [a]) <==> ReplyEnds(s, a)
  {
    assert [a][..0] == [];
  }

  lemma HeardOut(m: Frame, request: Frame)
    requires Acceptable(m, MAX_PAYLOAD_SIZE)
    ensures Heard(Sends(m, []), request).bytes == [] && Steady(Heard(Sends(m, []), request).plan)
  {
    assert Encode(m) + [] == Encode(m);
    ReceiveFront(Wire(Encode(m), []), m, [], MAX_PAYLOAD_SIZE);
  }
}
