/** Whole runs of one client session: any mix of sends and size negotiations after session_new, with the
    repaired sender of module Client. */
module SendRuns {
  import opened ByteOrder
  import opened Transport
  import opened Framing
  import opened Message
  import opened Segmentation
  import opened Sessions
  import C = Client

  /** A send of which `begun` frames were built before it ended (all of them unless a write failed), or
      a negotiation that the server answered with `reply`. */
  datatype Op = Send(data: Payload, begun: nat) | Negotiate(reply: u64)

  /** The session's counter and limit, and the frames put on the synchronous channel. */
  datatype Run = Run(messageId: u32, serverSizeMax: u64, posted: seq<Frame>)

  /** The frames that a send builds: none under a limit that leaves no room for payload. */
  function Pieces(r: Run, data: Payload): seq<Frame> {
    if r.serverSizeMax <= MSG_HEADER_SIZE then []
    else Fragments(data, r.serverSizeMax - MSG_HEADER_SIZE, r.messageId)
  }

  function Step(r: Run, op: Op): Run {
    match op
    case Negotiate(reply) => r.(serverSizeMax := reply)
    case Send(data, begun) =>
      var n := Min(begun, |Pieces(r, data)|);
      Run(IdAfter(r.messageId, n), r.serverSizeMax, r.posted + Pieces(r, data)[..n])
  }

  function Execute(ops: seq<Op>): Run {
    if ops == [] then Run(FIRST_MESSAGE_ID, DEFAULT_SIZE_MAX, []) else Step(Execute(ops[..|ops| - 1]), ops[|ops| - 1])
  }

  /** The size negotiated last: 256 before any negotiation. */
  function LastReply(ops: seq<Op>): u64 {
    if ops == [] then DEFAULT_SIZE_MAX
    else if ops[|ops| - 1].Negotiate? then ops[|ops| - 1].reply
    else LastReply(ops[..|ops| - 1])
  }

  lemma {:induction false} LimitIsLastReply(ops: seq<Op>)
    ensures Execute(ops).serverSizeMax == LastReply(ops)
  {
    if ops != [] {
      LimitIsLastReply(ops[..|ops| - 1]);
    }
  }

  lemma {:induction false} DefaultLimit(ops: seq<Op>)
    ensures (forall j :: 0 <= j < |ops| ==> ops[j].Send?) ==> LastReply(ops) == 256
  {
    if ops != [] {
      DefaultLimit(ops[..|ops| - 1]);
    }
  }

  /** What a step posts: the new entries are the first fragments of the payload, in order. */
  lemma StepPosts(r: Run, op: Op, i: nat)
    requires |r.posted| <= i < |Step(r, op).posted|
    ensures op.Send? && i - |r.posted| < |Pieces(r, op.data)|
    ensures Step(r, op).posted[i] == Pieces(r, op.data)[i - |r.posted|]
  {
  }

  /** Section 6.10 of IVI-6.1: every frame on the synchronous channel was posted by one of the calls, k, and is
      no larger, header included, than the size negotiated last before that call: 256 if there was none. */
  lemma {:induction false} SizeLimit(ops: seq<Op>, i: nat) returns (k: nat)
    requires i < |Execute(ops).posted|
    ensures k < |ops| && ops[k].Send?
    ensures |Execute(ops[..k]).posted| <= i < |Execute(ops[..k + 1]).posted|
    ensures |Encode(Execute(ops).posted[i])| <= LastReply(ops[..k])
    ensures (forall j :: 0 <= j < k ==> ops[j].Send?) ==> |Encode(Execute(ops).posted[i])| <= 256
  {
    k := |ops| - 1;
    var past := ops[..k];
    var r, op := Execute(past), ops[k];
    assert ops[..k + 1] == ops;
    if i < |r.posted| {
      k := SizeLimit(past, i);
      assert past[..k] == ops[..k] && past[..k + 1] == ops[..k + 1];
      assert Step(r, op).posted[i] == r.posted[i];
    } else {
      StepPosts(r, op, i);
      LimitIsLastReply(past);
      DefaultLimit(past);
      FragmentFits(op.data, r.serverSizeMax - MSG_HEADER_SIZE, r.messageId, i - |r.posted|);
    }
  }

  lemma FragmentFits(p: Payload, room: positive, id: u32, i: nat)
    requires i < |Fragments(p, room, id)|
    ensures |Encode(Fragments(p, room, id)[i])| <= MSG_HEADER_SIZE + room
  {
    FragmentAt(p, room, id, i);
  }

  /** The session's counter after n data messages. */
  lemma {:induction false} CounterLaw(ops: seq<Op>)
    ensures Execute(ops).messageId == IdAfter(FIRST_MESSAGE_ID, |Execute(ops).posted|)
  {
    if ops != [] {
      var r := Execute(ops[..|ops| - 1]);
      CounterLaw(ops[..|ops| - 1]);
      if ops[|ops| - 1].Send? {
        IdAfterAdds(FIRST_MESSAGE_ID, |r.posted|, |Execute(ops).posted| - |r.posted|);
      }
    }
  }

  /** Section 6.4 of IVI-6.1: the n-th data message of a session, counted across all its sends, carries
      0xFFFFFF00 + 2n in 32 bits. */
  lemma {:induction false} MessageIdLaw(ops: seq<Op>, n: nat)
    requires n < |Execute(ops).posted|
    ensures Execute(ops).posted[n].parameter == (0xFFFF_FF00 + 2 * n) % TWO_32
  {
    if ops != [] {
      var r, op := Execute(ops[..|ops| - 1]), ops[|ops| - 1];
      if n < |r.posted| {
        MessageIdLaw(ops[..|ops| - 1], n);
        assert Step(r, op).posted[n] == r.posted[n];
      } else {
        CounterLaw(ops[..|ops| - 1]);
        StepPosts(r, op, n);
        FragmentAt(op.data, r.serverSizeMax - MSG_HEADER_SIZE, r.messageId, n - |r.posted|);
        IdAfterAdds(FIRST_MESSAGE_ID, |r.posted|, n - |r.posted|);
      }
    }
  }

  lemma EvenId(n: nat)
    ensures (0xFFFF_FF00 + 2 * n) % TWO_32 % 2 == 0
  {
    var x := 0xFFFF_FF00 + 2 * n;
    assert x % TWO_32 == 2 * (0x7FFF_FF80 + n - x / TWO_32 * 0x8000_0000);
  }

  lemma HalfWindow(m: nat, n: nat)
    ensures (0xFFFF_FF00 + 2 * m) % TWO_32 == (0xFFFF_FF00 + 2 * n) % TWO_32 <==> (m - n) % 0x8000_0000 == 0
  {
    var x, y := 0xFFFF_FF00 + 2 * m, 0xFFFF_FF00 + 2 * n;
    var a, b := x / TWO_32, y / TWO_32;
    assert x == a * TWO_32 + x % TWO_32 && y == b * TWO_32 + y % TWO_32;
    assert 2 * (m - n) == (a - b) * TWO_32 + (x % TWO_32 - y % TWO_32);
  }

  /** Message ids are even, and two messages share one exactly when they are a multiple of 2^31 apart. */
  lemma MessageIdsDistinct(ops: seq<Op>, m: nat, n: nat)
    requires m < |Execute(ops).posted| && n < |Execute(ops).posted|
    ensures var posted := Execute(ops).posted;
            && posted[n].parameter % 2 == 0
            && (posted[m].parameter == posted[n].parameter <==> (m - n) % 0x8000_0000 == 0)
  {
    MessageIdLaw(ops, m);
    MessageIdLaw(ops, n);
    HalfWindow(m, n);
    EvenId(n);
  }

  // ===== the calls behind the steps =====

  /** A run describes a session when counter and limit agree. */
  predicate Tracks(r: Run, s: Session) {
    r.messageId == s.messageId && r.serverSizeMax == s.serverSizeMax
  }

  /** A call of the modelled hs_sync_send is a step of the run: same message id and limit behind it, and the
      stream has gained the frames the step posts, all of their bytes or, if a write failed, a prefix that
      ends within the last of them. */
  lemma SyncSendIsStep(s: Session, o: Outbox, r: Run, data: Payload)
    requires Tracks(r, s)
    ensures var fs := Pieces(r, data);
            var t := C.Transmit(o, fs);
            var r' := Step(r, Send(data, t.begun));
            && Tracks(r', C.Numbered(s, t.begun)) && r'.posted == r.posted + fs[..t.begun]
            && C.Gains(o, fs, t)
  {
    C.TransmitGains(o, Pieces(r, data));
  }

  /** The call itself, with the run it belongs to. */
  method SendInRun(table: SessionTable, device: nat, data: Payload, ghost r: Run) returns (sent: u64, ghost r': Run)
    requires table.Valid() && device < MAX_SESSIONS && table.slots[device].socketSync != null
    requires Tracks(r, table.slots[device])
    modifies table.slots, table.slots[device].socketSync`out
    ensures var o := old(table.slots[device].socketSync.out);
            var t := C.Transmit(o, Pieces(r, data));
            && r' == Step(r, Send(data, t.begun)) && Tracks(r', table.slots[device])
            && old(table.slots[device].socketSync).out == t.out && C.Gains(o, Pieces(r, data), t)
  {
    SyncSendIsStep(table.slots[device], table.slots[device].socketSync.out, r, data);
    r' := Step(r, Send(data, C.Transmit(table.slots[device].socketSync.out, Pieces(r, data)).begun));
    assert data[..|data|] == data;
    sent := C.SyncSend(table, device, data, |data|);
  }

  /** A call of hs_set_maximum_message_size is a step of the run: a negotiation if the server answers, and none
      if the call fails. */
  method NegotiateInRun(table: SessionTable, device: nat, size: u64, beyond: seq<byte>, ghost r: Run)
    returns (answer: u64, ghost r': Run)
    requires table.Valid() && device < MAX_SESSIONS && table.slots[device].socketAsync != null && |beyond| == 8
    requires Tracks(r, table.slots[device])
    modifies table.slots, table.slots[device].socketAsync
    ensures (r' == r || r' == Step(r, Negotiate(answer))) && Tracks(r', table.slots[device])
  {
    answer := C.SetMaximumMessageSize(table, device, size, beyond);
    r' := r.(serverSizeMax := table.slots[device].serverSizeMax);
  }

  // ===== what a peer receives over a whole session =====

  /** Every send of the run went out completely. */
  predicate AllSent(ops: seq<Op>) {
    ops == [] ||
    var past, op := ops[..|ops| - 1], ops[|ops| - 1];
    var r := Execute(past);
    && AllSent(past)
    && (op.Send? ==> r.serverSizeMax > MSG_HEADER_SIZE && op.begun >= |Pieces(r, op.data)|)
  }

  /** The payloads of the run that put anything on the channel. */
  function Payloads(ops: seq<Op>): seq<Payload> {
    if ops == [] then []
    else
      var op := ops[|ops| - 1];
      Payloads(ops[..|ops| - 1]) + (if op.Send? && op.data != [] then [op.data] else [])
  }

  datatype Heard = Heard(payloads: seq<seq<byte>>, rest: Wire) | Missed

  /** n calls of hs_sync_receive (repaired) in a row. */
  function ReceiveMany(w: Wire, cap: nat, n: nat): Heard {
    if n == 0 then Heard([], w)
    else match ReceiveMany(w, cap, n - 1)
      case Missed => Missed
      case Heard(payloads, rest) =>
        var a := Assemble(rest, cap);
        if a.Broken? || |a.data| > cap then Missed else Heard(payloads + [a.data], a.rest)
  }

  /** The stream after one more complete send: the past frames, then those of the payload. */
  lemma StepBytes(r: Run, op: Op, tail: seq<byte>)
    requires op.Send? && op.begun >= |Pieces(r, op.data)|
    ensures EncodeAll(Step(r, op).posted) + tail == EncodeAll(r.posted) + (EncodeAll(Pieces(r, op.data)) + tail)
  {
    var fs := Pieces(r, op.data);
    assert fs[..|fs|] == fs;
    EncodeAllAppend(r.posted, fs);
    Associates(EncodeAll(r.posted), EncodeAll(fs), tail);
  }

  /** n receives have returned these payloads and left this stream. */
  predicate Hears(w: Wire, cap: nat, payloads: seq<Payload>, tail: seq<byte>) {
    var h := ReceiveMany(w, cap, |payloads|);
    h.Heard? && h.payloads == payloads && h.rest.bytes == tail && Steady(h.rest.plan)
  }

  lemma HearsOneMore(w: Wire, cap: nat, payloads: seq<Payload>, p: Payload, room: positive, id: u32, tail: seq<byte>)
    requires Hears(w, cap, payloads, EncodeAll(Fragments(p, room, id)) + tail) && p != [] && |p| <= cap
    ensures Hears(w, cap, payloads + [p], tail)
  {
    var h := ReceiveMany(w, cap, |payloads|);
    Delivery(h.rest, p, room, id, tail, cap);
    assert |payloads + [p]| - 1 == |payloads|;
  }

  /** End to end over a whole session: after any mix of completed sends and negotiations, with the stream
      read in arbitrary pieces, successive receives return exactly the payloads sent, in order, and
      leave the stream behind them. */
  lemma {:induction false} SessionDelivery(ops: seq<Op>, w: Wire, tail: seq<byte>, cap: nat)
    requires AllSent(ops) && Steady(w.plan) && w.bytes == EncodeAll(Execute(ops).posted) + tail
    requires forall i :: 0 <= i < |ops| && ops[i].Send? ==> |ops[i].data| <= cap
    ensures Hears(w, cap, Payloads(ops), tail)
  {
    if ops != [] {
      var past, op := ops[..|ops| - 1], ops[|ops| - 1];
      var r := Execute(past);
      if op.Negotiate? {
        assert Payloads(ops) == Payloads(past);
        SessionDelivery(past, w, tail, cap);
      } else {
        var room := r.serverSizeMax - MSG_HEADER_SIZE;
        StepBytes(r, op, tail);
        SessionDelivery(past, w, EncodeAll(Fragments(op.data, room, r.messageId)) + tail, cap);
        if op.data != [] {
          HearsOneMore(w, cap, Payloads(past), op.data, room, r.messageId, tail);
        } else {
          assert Payloads(ops) == Payloads(past) && EncodeAll(Fragments([], room, r.messageId)) + tail == tail;
        }
      }
    }
  }
}
