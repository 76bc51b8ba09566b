/** msg_create, msg_send and msg_receive of src/message.c over a transport that splits the stream. */
module Framing {
  import opened ByteOrder
  import opened Transport
  import opened Message

  datatype Option<+T> = None | Some(value: T)

  // ===== the header in memory =====

  /** Swap the fields of a header struct and store it (src/message.c:127-138). */
  method HeaderToWire(header: Header) returns (image: seq<byte>)
    ensures image == EncodeHeader(header)
  {
    image := Pack(ToNetwork(header));
    PackedStructIsNetworkOrder(header);
  }

  /** Read a header struct and swap its fields (src/message.c:175-178, src/server.c:109-112). */
  method HeaderFromWire(image: seq<byte>) returns (header: Header)
    requires |image| == MSG_HEADER_SIZE
    ensures header == DecodeHeader(image)
  {
    header := ToHost(Unpack(image));
    UnpackedStructIsNetworkOrder(image);
  }

  // ===== sending =====

  /** msg_create: header struct filled in host order, swapped in place, payload copied behind it. */
  method MsgCreate(kind: byte, control: byte, parameter: u32, payloadLength: u64, payload: seq<byte>)
    returns (message: array<byte>)
    requires payloadLength <= |payload| && MSG_HEADER_SIZE + payloadLength <= MAX_WIRE_SIZE
    ensures fresh(message)
    ensures message[..] == Encode(Message(kind, control, parameter, payload[..payloadLength]))
  {
    message := new byte[MSG_HEADER_SIZE + payloadLength];
    var image := HeaderToWire(Header(MSG_HEADER_PROLOGUE, kind, control, parameter, payloadLength));
    CopyInto(message, 0, image);
    assert message[..MSG_HEADER_SIZE] == image;
    if payloadLength > 0 {
      CopyInto(message, MSG_HEADER_SIZE, payload[..payloadLength]);
    }
    assert message[..] == image + payload[..payloadLength];
  }

  /** msg_send: the length comes out of the frame itself, and there is a single write. */
  method MsgSend(socket: Socket, message: array<byte>, ghost m: Frame) returns (n: int)
    requires message[..] == Encode(m)
    modifies socket`out
    ensures n == WriteCount(old(socket.out), Encode(m)) && socket.out == AfterWrite(old(socket.out), Encode(m))
  {
    var length := FrameLength(message, m);
    n := socket.Write(message[..length]);
  }

  /** MSG_HEADER_SIZE + ntohll(header->payload_length), read back from the frame. */
  method FrameLength(message: array<byte>, ghost m: Frame) returns (length: nat)
    requires message[..] == Encode(m)
    ensures length == message.Length
  {
    var header := HeaderFromWire(message[..MSG_HEADER_SIZE]);
    assert message[..MSG_HEADER_SIZE] == EncodeHeader(HeaderOf(m));
    DecodeEncodeHeader(HeaderOf(m));
    length := MSG_HEADER_SIZE + header.payloadLength;
  }

  /** Outcome of writing until everything is accepted, the repair announced at src/tcp.c:127:
      how many bytes went out before a write failed. */
  datatype Pushed = Pushed(taken: nat, out: Outbox)

  function PushAll(o: Outbox, bytes: seq<byte>): (r: Pushed)
    ensures r.taken <= |bytes|
    decreases |o.plan|, |bytes|
  {
    if bytes == [] then Pushed(0, o)
    else
      var n := WriteCount(o, bytes);
      var after := AfterWrite(o, bytes);
      if n < 0 then Pushed(0, after)
      else if o.plan == [] then Pushed(n, after)
      else
        var r := PushAll(after, bytes[n..]);
        Pushed(n + r.taken, r.out)
  }

  /** What was taken is appended to the stream in order, and without failing writes that is everything. */
  lemma {:induction false} PushAllAppends(o: Outbox, bytes: seq<byte>)
    ensures var r := PushAll(o, bytes);
            && r.out.sent == o.sent + bytes[..r.taken]
            && (NoWriteFails(o.plan) ==> r.taken == |bytes| && NoWriteFails(r.out.plan))
    decreases |o.plan|, |bytes|
  {
    if bytes != [] && WriteCount(o, bytes) >= 0 && o.plan != [] {
      var n := WriteCount(o, bytes);
      PushAllAppends(AfterWrite(o, bytes), bytes[n..]);
      SplitTwice(bytes, n, PushAll(o, bytes).taken);
    }
  }

  /** A failing write, and nothing else, ends the sending: bytes stay behind exactly if a write that was made
      failed, and then that write was the last one made. */
  lemma {:induction false} PushAllExactly(o: Outbox, bytes: seq<byte>)
    ensures var r := PushAll(o, bytes);
            && LaterOut(o, r.out)
            && (r.taken == |bytes| <==> NoWriteFails(MetOut(o, r.out)))
            && (r.taken < |bytes| ==> EndsInFailure(MetOut(o, r.out)))
    decreases |o.plan|, |bytes|
  {
    var r, after := PushAll(o, bytes), AfterWrite(o, bytes);
    if bytes != [] && o.plan != [] {
      assert LaterOut(o, after) && MetOut(o, after) == [o.plan[0]];
      var n := WriteCount(o, bytes);
      if n >= 0 {
        PushAllExactly(after, bytes[n..]);
        MetOutAdds(o, after, r.out);
        if r.taken < |bytes| {
          OneMoreEvent(o.plan[0], MetOut(after, r.out));
        }
      }
    }
  }

  /** The last of these writes fails, and no other. */
  predicate EndsInFailure(events: seq<WriteEvent>) {
    events != [] && events[|events| - 1].WriteFails? && NoWriteFails(events[..|events| - 1])
  }

  lemma OneMoreEvent(e: WriteEvent, events: seq<WriteEvent>)
    requires e.WriteAtMost? && EndsInFailure(events)
    ensures EndsInFailure([e] + events)
  {
    assert ([e] + events)[..|events|] == [e] + events[..|events| - 1];
  }

  /** msg_send, repaired: the whole frame or an error. */
  method MsgSendAll(socket: Socket, message: array<byte>, ghost m: Frame) returns (n: int)
    requires message[..] == Encode(m)
    modifies socket`out
    ensures var r := PushAll(old(socket.out), Encode(m));
            socket.out == r.out && n == if r.taken == |Encode(m)| then r.taken else -1
  {
    var length := FrameLength(message, m);
    var done := 0;
    while done < length
      invariant done <= length == message.Length
      invariant var r, now := PushAll(old(socket.out), Encode(m)), PushAll(socket.out, message[done..]);
                r.out == now.out && r.taken == done + now.taken
      decreases |socket.out.plan|, length - done
    {
      var count := socket.Write(message[done..]);
      if count < 0 {
        return -1;
      }
      assert message[done..][count..] == message[done + count..];
      done := done + count;
    }
    n := length;
  }

  // ===== receiving, repaired: the destination advances and a failed read ends the call =====

  datatype Fetched = Got(bytes: seq<byte>, rest: Wire) | AtEof(rest: Wire) | Lost(rest: Wire)

  function Prepend(front: seq<byte>, f: Fetched): Fetched {
    if f.Got? then Got(front + f.bytes, f.rest) else f
  }

  /** What the repaired read loop obtains when it must collect `want` bytes. */
  function Fetch(w: Wire, want: nat): (f: Fetched)
    ensures f.Got? ==> |f.bytes| == want
    decreases want
  {
    if want == 0 then Got([], w)
    else
      var n := ReadCount(w, want);
      var after := AfterRead(w, want);
      if n == 0 then AtEof(after)
      else if n < 0 then Lost(after)
      else Prepend(w.bytes[..n], Fetch(after, want - n))
  }

  lemma FetchStep(w: Wire, want: positive)
    ensures var n := ReadCount(w, want);
            Fetch(w, want) ==
            if n == 0 then AtEof(AfterRead(w, want))
            else if n < 0 then Lost(AfterRead(w, want))
            else Prepend(w.bytes[..n], Fetch(AfterRead(w, want), want - n))
  {
  }

  lemma SplitTwice<T>(s: seq<T>, n: nat, m: nat)
    requires n <= m <= |s|
    ensures s[n..][m - n..] == s[m..] && s[..n] + s[n..][..m - n] == s[..m]
  {
  }

  /** Bytes come out in stream order whatever the read sizes. */
  lemma {:induction false} FetchInOrder(w: Wire, want: nat)
    requires Fetch(w, want).Got?
    ensures want <= |w.bytes|
    ensures Fetch(w, want).bytes == w.bytes[..want] && Fetch(w, want).rest.bytes == w.bytes[want..]
    decreases want
  {
    if want > 0 {
      var n := ReadCount(w, want);
      FetchStep(w, want);
      FetchInOrder(AfterRead(w, want), want - n);
      SplitTwice(w.bytes, n, want);
    }
  }

  /** The last of these reads fails, and no other. */
  predicate LastFails(events: seq<ReadEvent>) {
    events != [] && events[|events| - 1].ReadFails? && Steady(events[..|events| - 1])
  }

  lemma LastFailsAgain(front: seq<ReadEvent>, events: seq<ReadEvent>)
    requires Steady(front) && LastFails(events)
    ensures LastFails(front + events)
  {
    assert (front + events)[..|front + events| - 1] == front + events[..|events| - 1];
  }

  /** What the read loop comes to, by the reads it made and the bytes on the stream: it is lost exactly if a
      read failed, and that was its last one; else it has the bytes or has met the end of the stream. */
  predicate ByItsReads(w: Wire, want: nat, f: Fetched) {
    && Later(w, f.rest)
    && (f.Lost? <==> !Steady(Met(w, f.rest)))
    && (f.Lost? ==> LastFails(Met(w, f.rest)))
    && (!f.Lost? ==> if want <= |w.bytes| then f.Got? else f.AtEof? && f.rest.bytes == [])
  }

  lemma OneRead(w: Wire, want: positive)
    ensures var after := AfterRead(w, want);
            && Later(w, after) && Met(w, after) == (if w.plan == [] then [] else [w.plan[0]])
            && (Steady(Met(w, after)) <==> ReadCount(w, want) >= 0)
  {
  }

  lemma OneMoreRead(w: Wire, want: positive, f: Fetched, g: Fetched)
    requires 0 < ReadCount(w, want) && ByItsReads(AfterRead(w, want), want - ReadCount(w, want), g)
    requires f.rest == g.rest && (f.Got? <==> g.Got?) && (f.Lost? <==> g.Lost?)
    ensures ByItsReads(w, want, f)
  {
    var after := AfterRead(w, want);
    OneRead(w, want);
    MetAdds(w, after, f.rest);
    if f.Lost? {
      LastFailsAgain(Met(w, after), Met(after, f.rest));
    }
  }

  lemma NoMoreRead(w: Wire, want: positive)
    ensures ReadCount(w, want) == 0 ==> ByItsReads(w, want, AtEof(AfterRead(w, want)))
    ensures ReadCount(w, want) < 0 ==> ByItsReads(w, want, Lost(AfterRead(w, want)))
  {
    OneRead(w, want);
  }

  /** The read loop, for every plan. */
  lemma {:induction false} FetchExactly(w: Wire, want: nat, f: Fetched)
    requires f == Fetch(w, want)
    ensures ByItsReads(w, want, f)
    decreases want
  {
    if want > 0 {
      var n := ReadCount(w, want);
      NoMoreRead(w, want);
      if n > 0 {
        var g := Fetch(AfterRead(w, want), want - n);
        assert f == Prepend(w.bytes[..n], g);
        FetchExactly(AfterRead(w, want), want - n, g);
        OneMoreRead(w, want, f, g);
      }
    }
  }

  /** Without failing reads none is met. */
  lemma SteadyMeets(w: Wire, after: Wire)
    requires Steady(w.plan) && Later(w, after)
    ensures Steady(Met(w, after)) && Steady(after.plan)
  {
  }

  datatype Received = Delivered(message: Message, rest: Wire) | Closed(rest: Wire) | Refused(rest: Wire)

  /** What the repaired msg_receive makes of a wire: a message, an end of stream (on which it closes
      the socket), or another error. */
  function Receive(w: Wire, cap: nat): Received {
    match Fetch(w, MSG_HEADER_SIZE)
    case AtEof(rest) => Closed(rest)
    case Lost(rest) => Refused(rest)
    case Got(bytes, body) =>
      var h := DecodeHeader(bytes);
      if Refuses(h, cap) then Refused(body)
      else match Fetch(body, h.payloadLength)
        case AtEof(rest) => Closed(rest)
        case Lost(rest) => Refused(rest)
        case Got(payload, rest) => Delivered(Message(h.kind, h.control, h.parameter, payload), rest)
  }

  /** The result with the wire reduced to its bytes. */
  function AsParse(r: Received): Parse {
    match r
    case Delivered(m, rest) => Parsed(m, rest.bytes)
    case Refused(rest) => TurnedDown(rest.bytes)
    case Closed(_) => Cut
  }

  /** The read loop with a plan that never fails, in terms of the bytes alone. */
  lemma SteadyFetchMeaning(w: Wire, want: nat)
    requires Steady(w.plan)
    ensures var f := Fetch(w, want);
            && Steady(f.rest.plan)
            && if want <= |w.bytes| then f.Got? && f.bytes == w.bytes[..want] && f.rest.bytes == w.bytes[want..]
               else f.AtEof? && f.rest.bytes == []
  {
    FetchExactly(w, want, Fetch(w, want));
    SteadyMeets(w, Fetch(w, want).rest);
    if want <= |w.bytes| {
      FetchInOrder(w, want);
    }
  }

  /** msg_receive (repaired) for every plan: if a read it made failed, that was its last one and the call is
      refused; if none did, message and leftover are those of decoding the stream at once. So the socket
      is closed only with nothing left on the stream. */
  lemma ReceiveExactly(w: Wire, cap: nat)
    ensures var r := Receive(w, cap);
            && Later(w, r.rest)
            && (if Steady(Met(w, r.rest)) then AsParse(r) == Decode(w.bytes, cap)
                else r.Refused? && LastFails(Met(w, r.rest)))
            && (r.Closed? ==> r.rest.bytes == [])
  {
    FetchExactly(w, MSG_HEADER_SIZE, Fetch(w, MSG_HEADER_SIZE));
    match Fetch(w, MSG_HEADER_SIZE)
    case AtEof(_) =>
    case Lost(_) =>
    case Got(bytes, body) =>
      FetchInOrder(w, MSG_HEADER_SIZE);
      if !Refuses(DecodeHeader(bytes), cap) {
        var n := DecodeHeader(bytes).payloadLength;
        FetchExactly(body, n, Fetch(body, n));
        MetAdds(w, body, Fetch(body, n).rest);
        match Fetch(body, n) {
          case Got(_, _) => FetchInOrder(body, n);
          case Lost(rest) => LastFailsAgain(Met(w, body), Met(body, rest));
          case AtEof(_) =>
        }
      }
  }

  /** However the stream is split into reads, message and leftover are those of decoding it at once. */
  lemma ChunkingInvariance(w: Wire, cap: nat)
    requires Steady(w.plan)
    ensures AsParse(Receive(w, cap)) == Decode(w.bytes, cap)
    ensures Steady(Receive(w, cap).rest.plan)
  {
    ReceiveExactly(w, cap);
    SteadyMeets(w, Receive(w, cap).rest);
  }

  /** With failing reads allowed anywhere, a message that is delivered is still the decoded one. */
  lemma DeliveryIsSound(w: Wire, cap: nat)
    requires Receive(w, cap).Delivered?
    ensures Decode(w.bytes, cap) == Parsed(Receive(w, cap).message, Receive(w, cap).rest.bytes)
  {
    FetchInOrder(w, MSG_HEADER_SIZE);
    var Got(bytes, body) := Fetch(w, MSG_HEADER_SIZE);
    FetchInOrder(body, DecodeHeader(bytes).payloadLength);
  }

  /** A delivered message has taken its header off the stream, so receive loops make progress. */
  lemma DeliveryConsumes(w: Wire, cap: nat)
    requires Receive(w, cap).Delivered?
    ensures |w.bytes| == MSG_HEADER_SIZE + |Receive(w, cap).message.payload| + |Receive(w, cap).rest.bytes|
  {
    FetchInOrder(w, MSG_HEADER_SIZE);
    var Got(bytes, body) := Fetch(w, MSG_HEADER_SIZE);
    FetchInOrder(body, DecodeHeader(bytes).payloadLength);
  }

  /** Two fetches that end alike: same outcome, same stream left. */
  predicate SameEnd(a: Fetched, b: Fetched) {
    (a.Got? <==> b.Got?) && (a.AtEof? <==> b.AtEof?) && a.rest == b.rest
  }

  /** A read loop that comes to `goal` when `front` has been collected and `left` bytes are to come. */
  ghost predicate Ahead(goal: Fetched, front: seq<byte>, w: Wire, left: nat) {
    goal == Prepend(front, Fetch(w, left))
  }

  lemma PrependTwice(a: seq<byte>, b: seq<byte>, f: Fetched)
    ensures Prepend(a, Prepend(b, f)) == Prepend(a + b, f)
  {
    assert f.Got? ==> a + (b + f.bytes) == a + b + f.bytes;
  }

  lemma AheadStep(goal: Fetched, front: seq<byte>, w: Wire, left: positive)
    requires Ahead(goal, front, w, left)
    ensures var n, after := ReadCount(w, left), AfterRead(w, left);
            if n == 0 then goal == AtEof(after)
            else if n < 0 then goal == Lost(after)
            else Ahead(goal, front + w.bytes[..n], after, left - n)
  {
    var n := ReadCount(w, left);
    if n > 0 {
      PrependTwice(front, w.bytes[..n], Fetch(AfterRead(w, left), left - n));
    }
  }

  lemma AheadStart(w: Wire, want: nat)
    ensures Ahead(Fetch(w, want), [], w, want)
  {
    var f := Fetch(w, want);
    assert f.Got? ==> [] + f.bytes == f.bytes;
  }

  lemma AheadDone(goal: Fetched, front: seq<byte>, w: Wire)
    requires Ahead(goal, front, w, 0)
    ensures goal == Got(front, w)
  {
    assert front + [] == front;
  }

  /** One read behind the bytes `front` that the buffer holds already. */
  method ReadBehind(socket: Socket, buffer: array<byte>, left: positive, ghost front: seq<byte>, done: nat)
    returns (n: int)
    requires done + left == buffer.Length && buffer[..done] == front
    modifies socket`wire, buffer
    ensures n == ReadCount(old(socket.wire), left) && socket.wire == AfterRead(old(socket.wire), left)
    ensures n > 0 ==> buffer[..done + n] == front + old(socket.wire).bytes[..n]
  {
    n := socket.Read(buffer, done, left);
  }

  /** The repaired read loop, filling a buffer. Status 0 for success, 1 for end of stream, -1 for an error. */
  method Fill(socket: Socket, buffer: array<byte>) returns (status: int)
    modifies socket`wire, buffer
    ensures match Fetch(old(socket.wire), buffer.Length)
            case Got(bytes, rest) => status == 0 && buffer[..] == bytes && socket.wire == rest
            case AtEof(rest) => status == 1 && socket.wire == rest
            case Lost(rest) => status == -1 && socket.wire == rest
  {
    AheadStart(socket.wire, buffer.Length);
    status := FillRest(socket, buffer, Fetch(socket.wire, buffer.Length));
  }

  /** The loop itself, when it comes to `goal`. */
  method FillRest(socket: Socket, buffer: array<byte>, ghost goal: Fetched) returns (status: int)
    requires Ahead(goal, [], socket.wire, buffer.Length)
    modifies socket`wire, buffer
    ensures if status == 0 then goal == Got(buffer[..], socket.wire)
            else if status == 1 then goal == AtEof(socket.wire)
            else status == -1 && goal == Lost(socket.wire)
  {
    var left := buffer.Length;
    ghost var front: seq<byte>, w := [], socket.wire;
    while left > 0
      invariant 0 <= left <= buffer.Length && w == socket.wire && front == buffer[..buffer.Length - left]
      invariant Ahead(goal, front, w, left)
    {
      AheadStep(goal, front, w, left);
      var n := ReadBehind(socket, buffer, left, front, buffer.Length - left);
      if n == 0 {
        return 1;
      }
      if n < 0 {
        return -1;
      }
      front, w := front + w.bytes[..n], AfterRead(w, left);
      left := left - n;
    }
    AheadDone(goal, front, w);
    assert buffer[..] == buffer[..buffer.Length];
    status := 0;
  }

  /** msg_receive, repaired. None stands for the return value -1. */
  method MsgReceive(socket: Socket, cap: nat) returns (result: Option<Message>)
    requires cap <= MAX_WIRE_SIZE - MSG_HEADER_SIZE
    modifies socket`wire, socket`closed
    ensures match Receive(old(socket.wire), cap)
            case Delivered(m, rest) =>
              result == Some(m) && FitsInt(m) && socket.wire == rest && socket.closed == old(socket.closed)
            case Closed(rest) =>
              result == None && socket.wire == rest && socket.closed == old(socket.closed) + 1
            case Refused(rest) =>
              result == None && socket.wire == rest && socket.closed == old(socket.closed)
    ensures Later(old(socket.wire), socket.wire)
    ensures if Steady(Met(old(socket.wire), socket.wire)) && Decode(old(socket.wire).bytes, cap) == Cut
            then socket.closed == old(socket.closed) + 1 && socket.wire.bytes == []
            else socket.closed == old(socket.closed)
  {
    ReceiveExactly(socket.wire, cap);
    var raw := new byte[MSG_HEADER_SIZE];
    var status := Fill(socket, raw);
    if status == 1 {
      socket.Disconnect();
      return None;
    }
    if status == -1 {
      return None;
    }
    var header := HeaderFromWire(raw[..]);
    if header.prologue != MSG_HEADER_PROLOGUE {
      return None;
    }
    if header.kind == FATAL_ERROR {
      return None;
    } else if header.kind == ERROR {
      return None;
    }
    if header.payloadLength > cap {
      return None;
    }
    var payload := new byte[header.payloadLength];
    if header.payloadLength > 0 {
      status := Fill(socket, payload);
      if status == 1 {
        socket.Disconnect();
        return None;
      }
      if status == -1 {
        return None;
      }
    }
    assert header.payloadLength == 0 ==> payload[..] == [];
    result := Some(Message(header.kind, header.control, header.parameter, payload[..]));
  }
}
