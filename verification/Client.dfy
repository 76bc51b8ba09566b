/** hs_sync_send, hs_sync_receive and hs_set_maximum_message_size of src/client.c, repaired where the
    source leaves its own intent unfinished, and the receiver as written. */
module Client {
  import opened ByteOrder
  import opened Transport
  import opened Message
  import opened Framing
  import opened Segmentation
  import opened Sessions

  // ===== sending =====

  /** How far a list of frames gets: frames begun, bytes accepted, and the stream after it. */
  datatype Transmitted = Transmitted(begun: nat, taken: nat, out: Outbox)

  function Transmit(o: Outbox, frames: seq<Frame>): (r: Transmitted)
    ensures r.begun <= |frames| && r.taken <= |EncodeAll(frames)|
    decreases |frames|, 0
  {
    if frames == [] then Transmitted(0, 0, o) else After(PushAll(o, Encode(frames[0])), frames[0], frames[1..])
  }

  /** The rest of a transmission once its first frame has been pushed. */
  function After(first: Pushed, m: Frame, others: seq<Frame>): (r: Transmitted)
    requires first.taken <= |Encode(m)|
    ensures r.begun <= 1 + |others| && r.taken <= |Encode(m)| + |EncodeAll(others)|
    decreases |others|, 1
  {
    if first.taken < |Encode(m)| then Transmitted(1, first.taken, first.out)
    else
      var t := Transmit(first.out, others);
      Transmitted(1 + t.begun, first.taken + t.taken, t.out)
  }

  /** All frames were accepted. */
  predicate Complete(t: Transmitted, frames: seq<Frame>) {
    t.taken == |EncodeAll(frames)|
  }

  lemma AppendFront<X>(a: seq<X>, b: seq<X>, c: seq<X>, k: nat)
    requires k <= |c|
    ensures (a + b[..|b|]) + c[..k] == a + (b + c)[..|b| + k]
  {
  }

  /** What is accepted is the front of the encoded frames; only failing writes make it less than all. */
  lemma {:induction false} TransmitMeaning(o: Outbox, frames: seq<Frame>)
    ensures var r := Transmit(o, frames);
            && r.out.sent == o.sent + EncodeAll(frames)[..r.taken]
            && (Complete(r, frames) ==> r.begun == |frames|)
            && (NoWriteFails(o.plan) ==> Complete(r, frames) && NoWriteFails(r.out.plan))
    decreases |frames|
  {
    if frames != [] {
      var bytes, others := Encode(frames[0]), EncodeAll(frames[1..]);
      var first := PushAll(o, bytes);
      PushAllAppends(o, bytes);
      if first.taken == |bytes| {
        TransmitMeaning(first.out, frames[1..]);
        AppendFront(o.sent, bytes, others, Transmit(first.out, frames[1..]).taken);
      } else {
        assert (bytes + others)[..first.taken] == bytes[..first.taken];
      }
    }
  }

  /** Of the frames begun all but the last have gone out, and nothing behind them. */
  lemma {:induction false} BegunFrames(o: Outbox, frames: seq<Frame>)
    ensures var r := Transmit(o, frames);
            && r.taken <= |EncodeAll(frames[..r.begun])|
            && (r.begun > 0 ==> |EncodeAll(frames[..r.begun - 1])| <= r.taken)
    decreases |frames|
  {
    if frames != [] {
      var r, first := Transmit(o, frames), PushAll(o, Encode(frames[0]));
      assert r == After(first, frames[0], frames[1..]);
      assert frames[..r.begun] == [frames[0]] + frames[1..][..r.begun - 1];
      EncodeAllCons(frames[0], frames[1..][..r.begun - 1]);
      if first.taken == |Encode(frames[0])| {
        BegunFrames(first.out, frames[1..]);
        if r.begun > 1 {
          assert frames[..r.begun - 1] == [frames[0]] + frames[1..][..r.begun - 2];
          EncodeAllCons(frames[0], frames[1..][..r.begun - 2]);
        }
      }
    }
  }

  /** A failing write, and nothing else, ends the transmission: it is complete exactly if no write that was made
      failed; otherwise the last one made did. */
  lemma {:induction false} TransmitExactly(o: Outbox, frames: seq<Frame>, r: Transmitted)
    requires r == Transmit(o, frames)
    ensures LaterOut(o, r.out)
    ensures Complete(r, frames) <==> NoWriteFails(MetOut(o, r.out))
    ensures !Complete(r, frames) ==> EndsInFailure(MetOut(o, r.out))
    decreases |frames|
  {
    if frames != [] {
      var first := PushAll(o, Encode(frames[0]));
      PushAllExactly(o, Encode(frames[0]));
      if first.taken == |Encode(frames[0])| {
        var t := Transmit(first.out, frames[1..]);
        TransmitExactly(first.out, frames[1..], t);
        MetOutAdds(o, first.out, t.out);
        if !Complete(t, frames[1..]) {
          FailureAgain(MetOut(o, first.out), MetOut(first.out, t.out));
        }
      }
    }
  }

  lemma FailureAgain(front: seq<WriteEvent>, events: seq<WriteEvent>)
    requires NoWriteFails(front) && EndsInFailure(events)
    ensures EndsInFailure(front + events)
  {
    assert (front + events)[..|front + events| - 1] == front + events[..|events| - 1];
  }

  /** The stream has gained a prefix of the frames begun, which ends within the last of them. */
  predicate Gains(o: Outbox, frames: seq<Frame>, r: Transmitted)
    requires r.begun <= |frames|
  {
    var bytes := EncodeAll(frames[..r.begun]);
    && r.taken <= |bytes| && r.out.sent == o.sent + bytes[..r.taken]
    && (r.begun > 0 ==> |EncodeAll(frames[..r.begun - 1])| <= r.taken)
    && (Complete(r, frames) ==> r.begun == |frames| && r.out.sent == o.sent + EncodeAll(frames))
  }

  lemma TransmitGains(o: Outbox, frames: seq<Frame>)
    ensures Gains(o, frames, Transmit(o, frames))
  {
    var r := Transmit(o, frames);
    TransmitMeaning(o, frames);
    BegunFrames(o, frames);
    EncodeAllAppend(frames[..r.begun], frames[r.begun..]);
    assert frames == frames[..r.begun] + frames[r.begun..];
  }

  /** The body of the send loop: one frame with the next message id; -1 if it could not go out completely. */
  method SendFrame(table: SessionTable, device: nat, kind: byte, slice: Payload) returns (sent: int)
    requires table.Valid() && device < MAX_SESSIONS && table.slots[device].socketSync != null
    modifies table.slots, table.slots[device].socketSync`out
    ensures var s := old(table.slots[device]);
            var m := Message(kind, CC_RMT_NOT_DELIVERED, s.messageId, slice);
            var pushed := PushAll(old(table.slots[device].socketSync.out), Encode(m));
            && s.socketSync != null && s.socketSync.out == pushed.out
            && sent == (if pushed.taken == |Encode(m)| then pushed.taken else -1)
            && table.slots[..] == old(table.slots[..])[device := s.(messageId := IdAfter(s.messageId, 1))]
  {
    var socket := table.slots[device].socketSync;
    var parameter := table.slots[device].messageId;
    table.slots[device] := table.slots[device].(messageId := (parameter + 2) % TWO_32);
    var message := MsgCreate(kind, CC_RMT_NOT_DELIVERED, parameter, |slice|, slice);
    assert slice[..|slice|] == slice;
    sent := MsgSendAll(socket, message, Message(kind, CC_RMT_NOT_DELIVERED, parameter, slice));
  }

  function Left(o: Outbox, rest: Payload, room: positive, id: u32): Transmitted {
    Transmit(o, Fragments(rest, room, id))
  }

  lemma TransmitCons(o: Outbox, m: Frame, ms: seq<Frame>)
    ensures Transmit(o, [m] + ms) == After(PushAll(o, Encode(m)), m, ms)
  {
    assert ([m] + ms)[0] == m && ([m] + ms)[1..] == ms;
  }

  /** One pass of the send loop takes one frame off what is left to transmit. */
  lemma SendStep(goal: Transmitted, begun: nat, done: nat, o: Outbox, rest: Payload, room: positive, id: u32)
    requires rest != [] && Remains(goal, begun, done, Left(o, rest, room, id))
    ensures var m := NextFrame(rest, room, id);
            var pushed := PushAll(o, Encode(m));
            if pushed.taken < |Encode(m)| then goal == Transmitted(begun + 1, done + pushed.taken, pushed.out)
            else Remains(goal, begun + 1, done + |Encode(m)|,
                         Left(pushed.out, rest[|m.payload|..], room, IdAfter(id, 1)))
  {
    var m, ms := NextFrame(rest, room, id), Fragments(rest[Min(|rest|, room)..], room, IdAfter(id, 1));
    FirstFragment(rest, room, id);
    TransmitCons(o, m, ms);
  }

  /** The slot after n more data messages. */
  function Numbered(s: Session, n: nat): Session {
    s.(messageId := IdAfter(s.messageId, n))
  }

  lemma NumberedAdds(s: Session, m: nat, n: nat)
    ensures Numbered(Numbered(s, m), n) == Numbered(s, m + n)
  {
    IdAfterAdds(s.messageId, m, n);
  }

  lemma NumberedOnce(slots: seq<Session>, device: nat, s: Session, n: nat)
    requires device < |slots|
    ensures slots[device := Numbered(s, n)][device := Numbered(Numbered(s, n), 1)] ==
            slots[device := Numbered(s, n + 1)]
    ensures Numbered(Numbered(s, n), 1) == Numbered(s, n + 1)
  {
    NumberedAdds(s, n, 1);
  }

  /** `now` is what is still missing from the transmission `goal` after `begun` frames and `taken` bytes. */
  predicate Remains(goal: Transmitted, begun: nat, taken: nat, now: Transmitted) {
    goal == Transmitted(begun + now.begun, taken + now.taken, now.out)
  }

  /** The tests of the send loop on the byte count pick the size and the type of the next frame. */
  lemma NextFrameSize(rest: Payload, room: positive, id: u32)
    requires WireBytes(|rest|, room) > 0
    ensures var remaining, max := WireBytes(|rest|, room), room + MSG_HEADER_SIZE;
            var size := if remaining > max then room else remaining - MSG_HEADER_SIZE;
            && 0 < size <= |rest|
            && NextFrame(rest, room, id) ==
               Message(if remaining > max then DATA else DATA_END, CC_RMT_NOT_DELIVERED, id, rest[..size])
            && remaining - (MSG_HEADER_SIZE + size) == WireBytes(|rest[size..]|, room)
  {
  }

  /** What one pass of the send loop does to the transmission that is still missing. */
  lemma SendPass(goal: Transmitted, begun: nat, done: nat, o: Outbox, rest: Payload, room: positive, id: u32, size: nat)
    requires 0 < WireBytes(|rest|, room) && size == |NextFrame(rest, room, id).payload|
    requires Remains(goal, begun, done, Left(o, rest, room, id))
    ensures var pushed := PushAll(o, Encode(NextFrame(rest, room, id)));
            if pushed.taken < MSG_HEADER_SIZE + size then
              goal.begun == begun + 1 && goal.taken < done + WireBytes(|rest|, room) && goal.out == pushed.out
            else
              Remains(goal, begun + 1, done + MSG_HEADER_SIZE + size,
                      Left(pushed.out, rest[size..], room, IdAfter(id, 1)))
  {
    NextFrameSize(rest, room, id);
    SendStep(goal, begun, done, o, rest, room, id);
  }

  /** When no bytes remain, the transmission is complete. */
  lemma SendDone(goal: Transmitted, begun: nat, total: nat, o: Outbox, rest: Payload, room: positive, id: u32)
    requires WireBytes(|rest|, room) == 0 && Remains(goal, begun, total, Left(o, rest, room, id))
    ensures goal == Transmitted(begun, total, o)
  {
    WireBytesCompare(|rest|, room);
  }

  /** One pass of the send loop over the unsent part of the payload. */
  method SendNext(table: SessionTable, device: nat, socket: Socket, rest: Payload, remaining: nat, max: nat,
                  ghost goal: Transmitted, ghost begun: nat, ghost done: nat)
    returns (sent: int, size: nat)
    requires table.Valid() && device < MAX_SESSIONS && table.slots[device].socketSync == socket
    requires max > MSG_HEADER_SIZE && remaining > 0 && remaining == WireBytes(|rest|, max - MSG_HEADER_SIZE)
    requires Remains(goal, begun, done, Left(socket.out, rest, max - MSG_HEADER_SIZE, table.slots[device].messageId))
    modifies table.slots, socket`out
    ensures table.slots[..] == old(table.slots[..])[device := Numbered(old(table.slots[device]), 1)]
    ensures 0 < size <= |rest|
    ensures if sent < 0 then goal.begun == begun + 1 && goal.taken < done + remaining && goal.out == socket.out
            else sent <= remaining && remaining - sent == WireBytes(|rest[size..]|, max - MSG_HEADER_SIZE) &&
                 Remains(goal, begun + 1, done + sent,
                         Left(socket.out, rest[size..], max - MSG_HEADER_SIZE, table.slots[device].messageId))
  {
    ghost var id, o := table.slots[device].messageId, socket.out;
    NextFrameSize(rest, max - MSG_HEADER_SIZE, id);
    size := if remaining > max then max - MSG_HEADER_SIZE else remaining - MSG_HEADER_SIZE;
    var kind := if remaining > max then DATA else DATA_END;
    ghost var m := NextFrame(rest, max - MSG_HEADER_SIZE, id);
    assert m == Message(kind, CC_RMT_NOT_DELIVERED, id, rest[..size]);
    SendPass(goal, begun, done, o, rest, max - MSG_HEADER_SIZE, id, size);
    sent := SendFrame(table, device, kind, rest[..size]);
    assert socket.out == PushAll(o, Encode(m)).out && |Encode(m)| == MSG_HEADER_SIZE + size;
  }

  /** How many bytes the frames will take (src/client.c:214-219, line 218 repaired). */
  method ByteTotal(length: nat, max: nat) returns (total: nat)
    requires max > MSG_HEADER_SIZE
    ensures total == WireBytes(length, max - MSG_HEADER_SIZE)
  {
    var count := length / (max - MSG_HEADER_SIZE);
    total := count * max;
    if length % (max - MSG_HEADER_SIZE) != 0 {
      total := total + length % (max - MSG_HEADER_SIZE) + MSG_HEADER_SIZE;
    }
    WireTotalCountsFrames(length, max);
  }

  lemma FragmentsBytes(p: Payload, room: positive, id: u32)
    ensures |EncodeAll(Fragments(p, room, id))| == WireBytes(|p|, room)
  {
    FragmentsSize(p, room + MSG_HEADER_SIZE, id);
    WireTotalCountsFrames(|p|, room + MSG_HEADER_SIZE);
  }

  /** The send loop, with `remaining` wire bytes for the payload part `data` still to go. */
  method SendLoop(table: SessionTable, device: nat, socket: Socket, data: Payload, total: nat, max: nat)
    returns (ok: bool, ghost goal: Transmitted)
    requires table.Valid() && device < MAX_SESSIONS && table.slots[device].socketSync == socket
    requires max > MSG_HEADER_SIZE && total == WireBytes(|data|, max - MSG_HEADER_SIZE)
    modifies table.slots, socket`out
    ensures goal == Left(old(socket.out), data, max - MSG_HEADER_SIZE, old(table.slots[device]).messageId)
    ensures socket.out == goal.out && (ok <==> goal.taken == total)
    ensures table.slots[..] == old(table.slots[..])[device := Numbered(old(table.slots[device]), goal.begun)]
  {
    ghost var s, slots, begun := table.slots[device], table.slots[..], 0;
    goal := Left(socket.out, data, max - MSG_HEADER_SIZE, s.messageId);
    var rest, remaining := data, total;
    ok := true;
    while ok && remaining > 0
      invariant remaining <= total && table.slots[device] == Numbered(s, begun)
      invariant table.slots[..] == slots[device := Numbered(s, begun)]
      invariant if ok then
                  remaining == WireBytes(|rest|, max - MSG_HEADER_SIZE) &&
                  Remains(goal, begun, total - remaining,
                          Left(socket.out, rest, max - MSG_HEADER_SIZE, table.slots[device].messageId))
                else goal.begun == begun && goal.taken < total && goal.out == socket.out
      decreases ok, |rest|
    {
      NumberedOnce(slots, device, s, begun);
      var sent, size := SendNext(table, device, socket, rest, remaining, max, goal, begun, total - remaining);
      begun := begun + 1;
      if sent < 0 {
        ok := false;
      } else {
        rest, remaining := rest[size..], remaining - sent;
      }
    }
    if ok {
      SendDone(goal, begun, total, socket.out, rest, max - MSG_HEADER_SIZE, table.slots[device].messageId);
    }
  }

  /** hs_sync_send, repaired: a limit that leaves no room for payload is an error instead of a division by
      zero or a wrapped difference, the total of line 218 is a sum, every frame carries its own slice, and
      a failed send ends the call. */
  method SyncSend(table: SessionTable, device: nat, data: seq<byte>, length: u64) returns (r: u64)
    requires table.Valid() && device < MAX_SESSIONS && table.slots[device].socketSync != null
    requires length <= |data| && MSG_HEADER_SIZE + length <= MAX_WIRE_SIZE
    modifies table.slots, table.slots[device].socketSync`out
    ensures var s := old(table.slots[device]);
            var o := old(table.slots[device].socketSync.out);
            && s.socketSync != null
            && if s.serverSizeMax <= MSG_HEADER_SIZE then
                 r == MINUS_ONE_U64 && s.socketSync.out == o && table.slots[..] == old(table.slots[..])
               else
                 var frames := Fragments(data[..length], s.serverSizeMax - MSG_HEADER_SIZE, s.messageId);
                 var t := Transmit(o, frames);
                 && s.socketSync.out == t.out
                 && r == (if Complete(t, frames) then length else MINUS_ONE_U64)
                 && table.slots[..] == old(table.slots[..])[device := Numbered(s, t.begun)]
  {
    var socket, max := table.slots[device].socketSync, table.slots[device].serverSizeMax;
    if max <= MSG_HEADER_SIZE {
      return MINUS_ONE_U64;
    }
    var remaining := ByteTotal(length, max);
    FragmentsBytes(data[..length], max - MSG_HEADER_SIZE, table.slots[device].messageId);
    var ok, _ := SendLoop(table, device, socket, data[..length], remaining, max);
    r := if ok then length else MINUS_ONE_U64;
  }

  // ===== receiving =====

  function PrependData(front: seq<byte>, a: Assembled): Assembled {
    if a.Whole? then Whole(front + a.data, a.rest) else a
  }

  /** What the caller of hs_sync_receive gets: the return value and the bytes copied to its buffer. */
  function Handed(a: Assembled, cap: nat): (r: (u64, seq<byte>))
    requires cap < TWO_64
  {
    if a.Broken? then (MINUS_ONE_U64, [])
    else if |a.data| > cap then (0, [])
    else (|a.data|, a.data)
  }

  /** hs_sync_receive (repaired) on any frames and with any reads: all payloads up to the first DataEnd, with
      their length, if they fit the buffer; 0 and nothing if they do not, the stream left behind the DataEnd
      in both cases; and -1 exactly if a read on the way failed. */
  lemma ReceiveMeaning(w: Wire, ms: seq<Frame>, last: Frame, tail: seq<byte>, cap: nat)
    requires Middle(ms, cap) && last.kind == 7 && Acceptable(last, cap) && cap < TWO_64
    requires w.bytes == EncodeAll(ms) + (Encode(last) + tail)
    ensures var a, data := Assemble(w, cap), Joined(ms) + last.payload;
            && Later(w, a.rest)
            && if !Steady(Met(w, a.rest)) then Handed(a, cap) == (0xFFFF_FFFF_FFFF_FFFF, [])
               else a.rest.bytes == tail && Handed(a, cap) == if |data| > cap then (0, []) else (|data|, data)
  {
    AssembleExactly(w, ms, last, tail, cap);
  }

  /** As written: the payload of the DataEnd and its length, which always fit; -1 exactly if a read failed. */
  lemma ReceiveMeaningAsWritten(w: Wire, ms: seq<Frame>, last: Frame, tail: seq<byte>, cap: nat)
    requires Middle(ms, cap) && last.kind == 7 && Acceptable(last, cap) && cap < TWO_64
    requires w.bytes == EncodeAll(ms) + (Encode(last) + tail)
    ensures var a := AssembleLast(w, cap);
            && Later(w, a.rest)
            && if !Steady(Met(w, a.rest)) then Handed(a, cap) == (0xFFFF_FFFF_FFFF_FFFF, [])
               else a.rest.bytes == tail && Handed(a, cap) == (|last.payload|, last.payload)
  {
    AssembleLastExactly(w, ms, last, tail, cap);
  }

  /** Either way, frames without a DataEnd in front of the end of the stream, or of a header that is refused,
      give -1, with any reads; the socket is closed exactly at the end of the stream. */
  lemma ReceiveFails(w: Wire, ms: seq<Frame>, tail: seq<byte>, cap: nat)
    requires Middle(ms, cap) && w.bytes == EncodeAll(ms) + tail && !Decode(tail, cap).Parsed? && cap < TWO_64
    ensures Handed(Assemble(w, cap), cap) == (0xFFFF_FFFF_FFFF_FFFF, [])
    ensures Handed(AssembleLast(w, cap), cap) == (0xFFFF_FFFF_FFFF_FFFF, [])
    ensures Fails(w, Assemble(w, cap), tail, cap) && Fails(w, AssembleLast(w, cap), tail, cap)
  {
    AssembleFails(w, ms, tail, cap);
  }

  /** hs_sync_receive, repaired: the FIFO of lines 273 and 282 exists. */
  method SyncReceive(table: SessionTable, device: nat, cap: nat) returns (r: u64, data: seq<byte>)
    requires table.Valid() && device < MAX_SESSIONS && table.slots[device].socketSync != null
    requires cap <= MAX_WIRE_SIZE - MSG_HEADER_SIZE
    modifies table.slots[device].socketSync`wire, table.slots[device].socketSync`closed
    ensures var a := Assemble(old(table.slots[device].socketSync.wire), cap);
            && (r, data) == Handed(a, cap) && table.slots[device].socketSync.wire == a.rest
            && table.slots[device].socketSync.closed ==
               old(table.slots[device].socketSync.closed) + (if a.Broken? && a.eof then 1 else 0)
  {
    var socket := table.slots[device].socketSync;
    ghost var goal := Assemble(socket.wire, cap);
    var fifo: seq<byte> := [];
    while true
      invariant PrependData(fifo, Assemble(socket.wire, cap)) == goal && socket.closed == old(socket.closed)
      decreases |socket.wire.bytes|
    {
      ghost var w := socket.wire;
      var message := MsgReceive(socket, cap);
      if message == None {
        return MINUS_ONE_U64, [];
      }
      DeliveryConsumes(w, cap);
      PrependDataTwice(fifo, message.value.payload, Assemble(socket.wire, cap));
      fifo := fifo + message.value.payload;
      if message.value.kind == DATA_END {
        break;
      }
    }
    if |fifo| > cap {
      return 0, [];
    }
    r, data := |fifo|, fifo;
  }

  lemma PrependDataTwice(a: seq<byte>, b: seq<byte>, x: Assembled)
    ensures PrependData(a, PrependData(b, x)) == PrependData(a + b, x)
  {
    if x.Whole? {
      assert a + (b + x.data) == a + b + x.data;
    }
  }

  /** hs_sync_receive as written: the payload of every frame but the DataEnd is dropped. */
  method SyncReceiveAsWritten(table: SessionTable, device: nat, cap: nat) returns (r: u64, data: seq<byte>)
    requires table.Valid() && device < MAX_SESSIONS && table.slots[device].socketSync != null
    requires cap <= MAX_WIRE_SIZE - MSG_HEADER_SIZE
    modifies table.slots[device].socketSync`wire, table.slots[device].socketSync`closed
    ensures var a := AssembleLast(old(table.slots[device].socketSync.wire), cap);
            && (r, data) == Handed(a, cap) && table.slots[device].socketSync.wire == a.rest
            && table.slots[device].socketSync.closed ==
               old(table.slots[device].socketSync.closed) + (if a.Broken? && a.eof then 1 else 0)
  {
    var socket := table.slots[device].socketSync;
    ghost var goal := AssembleLast(socket.wire, cap);
    var payload: seq<byte> := [];
    while true
      invariant AssembleLast(socket.wire, cap) == goal && socket.closed == old(socket.closed)
      decreases |socket.wire.bytes|
    {
      ghost var w := socket.wire;
      var message := MsgReceive(socket, cap);
      if message == None {
        return MINUS_ONE_U64, [];
      }
      DeliveryConsumes(w, cap);
      payload := message.value.payload;
      if message.value.kind == DATA_END {
        break;
      }
    }
    if |payload| > cap {
      return 0, [];
    }
    r, data := |payload|, payload;
  }

  /** End to end, in the caller's terms: a payload sent completely by hs_sync_send (repaired) over a
      stream read in arbitrary pieces is handed over unchanged by hs_sync_receive (repaired) exactly
      when it fits the receiver's buffer, and then the stream is left at the next message. */
  lemma EndToEnd(o: Outbox, p: Payload, room: positive, id: u32, w: Wire, tail: seq<byte>, cap: nat)
    requires p != [] && cap < TWO_64
    requires Complete(Transmit(o, Fragments(p, room, id)), Fragments(p, room, id))
    requires Steady(w.plan) && o.sent + w.bytes == Transmit(o, Fragments(p, room, id)).out.sent + tail
    ensures Handed(Assemble(w, cap), cap) == (|p|, p) <==> |p| <= cap
    ensures |p| <= cap ==> Assemble(w, cap).rest.bytes == tail
  {
    TransmitMeaning(o, Fragments(p, room, id));
    var bytes := EncodeAll(Fragments(p, room, id));
    FrontCancels(o.sent, w.bytes, bytes, tail);
    if Min(|p|, room) <= cap {
      Delivery(w, p, room, id, tail, cap);
    } else {
      DeliveryNeedsRoom(w, p, room, id, tail, cap);
    }
  }

  // ===== negotiating the message size =====

  /** The 8 bytes that `ntohll(*size_p)` reads: the reply's payload, and memory behind it if that is short. */
  function ReplySize(payload: seq<byte>, beyond: seq<byte>): u64
    requires |beyond| == 8
  {
    Pow256Values();
    LoadBE((payload + beyond)[..8])
  }

  /** The memory of a 64-bit variable that holds htonll(size). */
  method SizeToWire(size: u64) returns (payload: seq<byte>)
    ensures payload == StoreBE(size, 8)
  {
    payload := StoreLE(Htonll(size), 8);
    HtonllIsByteReversal(size);
  }

  method SizeFromWire(memory: seq<byte>) returns (size: u64)
    requires |memory| == 8
    ensures size == LoadBE(memory)
  {
    NtohllLoads(memory);
    size := Ntohll(LoadLE(memory));
  }

  function SizeRequest(size: u64): Frame {
    Message(ASYNC_MAXIMUM_MESSAGE_SIZE, 0, 0, StoreBE(size, 8))
  }

  /** What a peer makes of these bytes, whatever follows them: message 15 with the 8-byte size in network order. */
  ghost predicate Announces(bytes: seq<byte>, size: u64) {
    && |bytes| == 24
    && (forall k :: 0 <= k < 8 ==> bytes[16..][k] == size / Pow256(7 - k) % 256)
    && forall tail: seq<byte> :: Announced(Decode(bytes + tail, 8), size, tail)
  }

  predicate Announced(p: Parse, size: u64, tail: seq<byte>) {
    && p.Parsed? && p.rest == tail
    && p.message.kind == 15 && p.message.control == 0 && p.message.parameter == 0
    && |p.message.payload| == 8 && LoadBE(p.message.payload) == size
  }

  /** A write of such bytes has been tried, and that is all that was done to the stream. */
  ghost predicate HasAnnounced(before: Outbox, after: Outbox, size: u64) {
    exists bytes: seq<byte> :: Announces(bytes, size) && after == AfterWrite(before, bytes)
  }

  lemma RequestDecodes(size: u64, tail: seq<byte>)
    ensures Announced(Decode(Encode(SizeRequest(size)) + tail, 8), size, tail)
  {
    Pow256Values();
    LoadStoreBE(size, 8);
    DecodeEncode(SizeRequest(size), tail, 8);
  }

  lemma RequestDigit(size: u64, k: nat)
    requires k < 8
    ensures Encode(SizeRequest(size))[16..][k] == size / Pow256(7 - k) % 256
  {
    BigEndianDigit(size, 8, k);
    assert Encode(SizeRequest(size))[16..] == SizeRequest(size).payload;
  }

  lemma RequestAnnounces(size: u64, o: Outbox)
    ensures HasAnnounced(o, AfterWrite(o, Encode(SizeRequest(size))), size)
  {
    var bytes := Encode(SizeRequest(size));
    forall k | 0 <= k < 8
      ensures bytes[16..][k] == size / Pow256(7 - k) % 256
    {
      RequestDigit(size, k);
    }
    forall tail: seq<byte>
      ensures Announced(Decode(bytes + tail, 8), size, tail)
    {
      RequestDecodes(size, tail);
    }
    assert Announces(bytes, size);
  }

  /** hs_set_maximum_message_size (section 6.10 of IVI-6.1). */
  method SetMaximumMessageSize(table: SessionTable, device: nat, size: u64, beyond: seq<byte>) returns (r: u64)
    requires table.Valid() && device < MAX_SESSIONS && table.slots[device].socketAsync != null && |beyond| == 8
    modifies table.slots, table.slots[device].socketAsync
    ensures old(table.slots[device].socketAsync) != null &&
            HasAnnounced(old(table.slots[device].socketAsync.out), old(table.slots[device].socketAsync).out, size)
    ensures var s := old(table.slots[device]).(clientSizeMax := size);
            var o := old(table.slots[device].socketAsync.out);
            var w := old(table.slots[device].socketAsync.wire);
            var closed := old(table.slots[device].socketAsync.closed);
            var reply := Receive(w, 8);
            && s.socketAsync != null && s.socketAsync.out == AfterWrite(o, Encode(SizeRequest(size)))
            && if WriteCount(o, Encode(SizeRequest(size))) == -1 then
                 && r == 0 && table.slots[..] == old(table.slots[..])[device := s]
                 && s.socketAsync.wire == w && s.socketAsync.closed == closed
               else
                 && s.socketAsync.wire == reply.rest
                 && s.socketAsync.closed == closed + (if reply.Closed? then 1 else 0)
                 && if !reply.Delivered? || reply.message.kind != 16 then
                      r == MINUS_ONE_U64 && table.slots[..] == old(table.slots[..])[device := s]
                    else
                      r == ReplySize(reply.message.payload, beyond) &&
                      table.slots[..] == old(table.slots[..])[device := s.(serverSizeMax := r)]
  {
    var socket := table.slots[device].socketAsync;
    RequestAnnounces(size, socket.out);
    table.slots[device] := table.slots[device].(clientSizeMax := size);
    var payload := SizeToWire(size);
    var message := MsgCreate(ASYNC_MAXIMUM_MESSAGE_SIZE, 0, 0, 8, payload);
    assert payload[..8] == payload;
    var sent := MsgSend(socket, message, SizeRequest(size));
    if sent == -1 {
      return 0;
    }
    var reply := MsgReceive(socket, 8);
    if reply == None {
      return MINUS_ONE_U64;
    }
    if reply.value.kind != ASYNC_MAXIMUM_MESSAGE_SIZE_RESPONSE {
      return MINUS_ONE_U64;
    }
    var memory := (reply.value.payload + beyond)[..8];
    r := SizeFromWire(memory);
    table.slots[device] := table.slots[device].(serverSizeMax := r);
  }

  /** A server that answers with the network-order image of its limit makes the client use that limit. */
  lemma NegotiatedSize(limit: u64, beyond: seq<byte>)
    requires |beyond| == 8
    ensures ReplySize(StoreBE(limit, 8), beyond) == limit
  {
    Pow256Values();
    assert (StoreBE(limit, 8) + beyond)[..8] == StoreBE(limit, 8);
    LoadStoreBE(limit, 8);
  }

  /** Byte for byte: a short reply is filled up with what lies behind it. */
  lemma ReplyDigit(payload: seq<byte>, beyond: seq<byte>, k: nat)
    requires |beyond| == 8 && |payload| <= 8 && k < 8
    ensures ReplySize(payload, beyond) / Pow256(7 - k) % 256 ==
            if k < |payload| then payload[k] else beyond[k - |payload|]
  {
    var memory := (payload + beyond)[..8];
    StoreLoadBE(memory);
    BigEndianDigit(LoadBE(memory), 8, k);
  }

  /** Over reads that do not fail, message 16 with the size in network order, whatever its other fields and
      whatever follows it, is taken as the server's limit. */
  lemma NegotiationSucceeds(w: Wire, limit: u64, control: byte, parameter: u32, tail: seq<byte>, beyond: seq<byte>)
    requires Steady(w.plan) && |beyond| == 8
    requires w.bytes == Encode(Message(16, control, parameter, StoreBE(limit, 8))) + tail
    ensures var reply := Receive(w, 8);
            && reply.Delivered? && reply.message.kind == 16 && reply.rest.bytes == tail
            && ReplySize(reply.message.payload, beyond) == limit
  {
    ChunkingInvariance(w, 8);
    DecodeEncode(Message(16, control, parameter, StoreBE(limit, 8)), tail, 8);
    NegotiatedSize(limit, beyond);
  }
}
