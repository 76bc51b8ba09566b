/** Data transfer on the synchronous channel (section 6.4 of IVI-6.1): how a payload is cut into frames,
    how many bytes that takes, and what a receiver puts together again. */
module Segmentation {
  import opened ByteOrder
  import opened Transport
  import opened Message
  import opened Framing

  /** A payload whose length still fits an `int` with a header in front. */
  type Payload = p: seq<byte> | MSG_HEADER_SIZE + |p| <= MAX_WIRE_SIZE witness []

  function IdAfter(id: u32, n: nat): u32 {
    (id + 2 * n) % TWO_32
  }

  lemma IdAfterAdds(id: u32, m: nat, n: nat)
    ensures IdAfter(IdAfter(id, m), n) == IdAfter(id, m + n)
  {
    var q := (id + 2 * m) / TWO_32;
    assert id + 2 * m + 2 * n == q * TWO_32 + (IdAfter(id, m) + 2 * n);
  }

  /** Data frames of `room` payload bytes each, and a DataEnd with what is left. */
  function Fragments(p: Payload, room: positive, id: u32): (fs: seq<Frame>)
    decreases |p|
  {
    if p == [] then []
    else if |p| <= room then [Message(DATA_END, CC_RMT_NOT_DELIVERED, id, p)]
    else [Message(DATA, CC_RMT_NOT_DELIVERED, id, p[..room])] + Fragments(p[room..], room, IdAfter(id, 1))
  }

  /** The frame that the send loop builds next. */
  function NextFrame(rest: Payload, room: positive, id: u32): Frame
    requires rest != []
  {
    Message(if |rest| > room then DATA else DATA_END, CC_RMT_NOT_DELIVERED, id, rest[..Min(|rest|, room)])
  }

  lemma FirstFragment(p: Payload, room: positive, id: u32)
    requires p != []
    ensures Fragments(p, room, id) == [NextFrame(p, room, id)] + Fragments(p[Min(|p|, room)..], room, IdAfter(id, 1))
  {
    if |p| <= room {
      assert p[..|p|] == p && p[|p|..] == [];
    }
  }

  lemma FrontCancels<X>(a: seq<X>, b: seq<X>, c: seq<X>, d: seq<X>)
    requires a + b == (a + c) + d
    ensures b == c + d
  {
    assert b == (a + b)[|a|..];
    assert c + d == ((a + c) + d)[|a|..];
  }

  function CeilDiv(n: nat, d: positive): nat {
    (n + d - 1) / d
  }

  /** The byte total of src/client.c:214-219 with the assignment of line 218 repaired to an addition. */
  function WireTotal(length: nat, max: nat): nat
    requires max > MSG_HEADER_SIZE
  {
    var room := max - MSG_HEADER_SIZE;
    length / room * max + (if length % room != 0 then length % room + MSG_HEADER_SIZE else 0)
  }

  lemma CeilDivMeaning(n: nat, d: positive)
    ensures CeilDiv(n, d) == n / d + (if n % d != 0 then 1 else 0)
  {
    if n % d == 0 {
      DivModUnique(n + d - 1, d, n / d, d - 1);
    } else {
      DivModUnique(n + d - 1, d, n / d + 1, n % d - 1);
    }
  }

  /** The total is the payload and one header per started block of `room` bytes. */
  lemma WireTotalMeaning(length: nat, max: nat)
    requires max > MSG_HEADER_SIZE
    ensures WireTotal(length, max) == length + MSG_HEADER_SIZE * CeilDiv(length, max - MSG_HEADER_SIZE)
  {
    var room := max - MSG_HEADER_SIZE;
    CeilDivMeaning(length, room);
    var q := length / room;
    assert q * max == q * room + q * MSG_HEADER_SIZE;
  }

  lemma CeilDivStep(n: nat, d: positive)
    ensures n == 0 ==> CeilDiv(n, d) == 0
    ensures 0 < n <= d ==> CeilDiv(n, d) == 1
    ensures n > d ==> CeilDiv(n, d) == 1 + CeilDiv(n - d, d)
  {
    if n == 0 {
      DivModUnique(d - 1, d, 0, d - 1);
    } else if n <= d {
      DivModUnique(n + d - 1, d, 1, n - 1);
    } else {
      var m := n - 1;
      DivModUnique(n + d - 1, d, m / d + 1, m % d);
    }
  }

  /** What the loop of hs_sync_send relies on: while more than one frame is left, a full one comes off
      the total; the test `remaining > max` tells exactly whether more than one is left. */
  lemma WireTotalStep(length: nat, max: nat)
    requires max > MSG_HEADER_SIZE
    ensures var room := max - MSG_HEADER_SIZE;
            && (length == 0 <==> WireTotal(length, max) == 0)
            && (length > room <==> WireTotal(length, max) > max)
            && (0 < length <= room ==> WireTotal(length, max) == length + MSG_HEADER_SIZE)
            && (length > room ==> WireTotal(length, max) == max + WireTotal(length - room, max))
  {
    var room := max - MSG_HEADER_SIZE;
    WireTotalMeaning(length, max);
    CeilDivStep(length, room);
    if length > room {
      WireTotalMeaning(length - room, max);
      CeilDivStep(length - room, room);
    }
  }

  /** Nothing in the sender's 64-bit arithmetic wraps. */
  lemma WireTotalFits(p: Payload, max: nat)
    requires max > MSG_HEADER_SIZE
    ensures WireTotal(|p|, max) < TWO_64
  {
    WireTotalMeaning(|p|, max);
    CeilDivAtMost(|p|, max - MSG_HEADER_SIZE);
  }

  lemma {:induction false} CeilDivAtMost(n: nat, d: positive)
    ensures CeilDiv(n, d) <= n
    decreases n
  {
    CeilDivStep(n, d);
    if n > d {
      CeilDivAtMost(n - d, d);
    }
  }

  /** Bytes of the frames for `length` payload bytes, frame by frame. */
  function WireBytes(length: nat, room: positive): nat {
    if length == 0 then 0
    else if length <= room then length + MSG_HEADER_SIZE
    else room + MSG_HEADER_SIZE + WireBytes(length - room, room)
  }

  /** The closed formula counts what the frames take one by one. */
  lemma {:induction false} WireTotalCountsFrames(length: nat, max: nat)
    requires max > MSG_HEADER_SIZE
    ensures WireTotal(length, max) == WireBytes(length, max - MSG_HEADER_SIZE)
    decreases length
  {
    WireTotalStep(length, max);
    if length > max - MSG_HEADER_SIZE {
      WireTotalCountsFrames(length - (max - MSG_HEADER_SIZE), max);
    }
  }

  /** `remaining > max` tells whether more than one frame is left. */
  lemma WireBytesCompare(length: nat, room: positive)
    ensures length > room <==> WireBytes(length, room) > room + MSG_HEADER_SIZE
    ensures length == 0 <==> WireBytes(length, room) == 0
  {
  }

  /** The frames take exactly the computed number of bytes, and there is one per started block. */
  lemma {:induction false} FragmentsSize(p: Payload, max: nat, id: u32)
    requires max > MSG_HEADER_SIZE
    ensures |EncodeAll(Fragments(p, max - MSG_HEADER_SIZE, id))| == WireTotal(|p|, max)
    ensures |Fragments(p, max - MSG_HEADER_SIZE, id)| == CeilDiv(|p|, max - MSG_HEADER_SIZE)
    decreases |p|
  {
    var room := max - MSG_HEADER_SIZE;
    WireTotalStep(|p|, max);
    CeilDivStep(|p|, room);
    if |p| > room {
      FragmentsSize(p[room..], max, IdAfter(id, 1));
      EncodeAllCons(Fragments(p, room, id)[0], Fragments(p[room..], room, IdAfter(id, 1)));
    } else if p != [] {
      EncodeAllCons(Fragments(p, room, id)[0], []);
    }
  }

  /** At most `room` bytes from a given start, or what is left. */
  function Slice(p: Payload, start: nat, room: positive): (s: Payload)
    requires start <= |p|
  {
    p[start..Min(start + room, |p|)]
  }

  lemma SliceOfRest(p: Payload, start: nat, room: positive)
    requires room <= |p| && start <= |p| - room
    ensures Slice(p[room..], start, room) == Slice(p, start + room, room)
  {
  }

  lemma NextBlock(i: nat, room: positive)
    ensures (i + 1) * room == i * room + room
  {
  }

  /** Frame i by itself: which slice of the payload it carries, its type, and its message id. */
  lemma {:induction false} FragmentAt(p: Payload, room: positive, id: u32, i: nat)
    requires i < |Fragments(p, room, id)|
    ensures i * room < |p|
    ensures var fs := Fragments(p, room, id);
            && (i == |fs| - 1 <==> i * room + room >= |p|)
            && fs[i] == Message(if i == |fs| - 1 then DATA_END else DATA, CC_RMT_NOT_DELIVERED, IdAfter(id, i),
                                Slice(p, i * room, room))
    decreases |p|
  {
    if i > 0 {
      var q := p[room..];
      FragmentAt(q, room, IdAfter(id, 1), i - 1);
      NextBlock(i - 1, room);
      IdAfterAdds(id, 1, i - 1);
      SliceOfRest(p, (i - 1) * room, room);
    } else if |p| > room {
      FragmentsNonEmpty(p[room..], room, IdAfter(id, 1));
    }
  }

  lemma FragmentsNonEmpty(p: Payload, room: positive, id: u32)
    ensures Fragments(p, room, id) == [] <==> p == []
  {
  }

  // ===== putting a payload together again =====

  /** A steady wire with an acceptable frame in front. */
  lemma ReceiveFront(w: Wire, m: Frame, tail: seq<byte>, cap: nat)
    requires Steady(w.plan) && w.bytes == Encode(m) + tail
    ensures Acceptable(m, cap) <==> Receive(w, cap).Delivered?
    ensures Acceptable(m, cap) ==> Receive(w, cap).message == m && Receive(w, cap).rest.bytes == tail
    ensures !Acceptable(m, cap) ==> Receive(w, cap).Refused?
    ensures Steady(Receive(w, cap).rest.plan)
  {
    ChunkingInvariance(w, cap);
    DecodeEncode(m, tail, cap);
  }

  /** `eof`: the stream ended inside a frame, and the socket was closed for that. */
  datatype Assembled = Whole(data: seq<byte>, rest: Wire) | Broken(rest: Wire, eof: bool)

  /** hs_sync_receive with the FIFO its comments announce: every payload is kept until a DataEnd. */
  function Assemble(w: Wire, cap: nat): Assembled
    decreases |w.bytes|
  {
    var r := Receive(w, cap);
    if !r.Delivered? then Broken(r.rest, r.Closed?)
    else if r.message.kind == DATA_END then Whole(r.message.payload, r.rest)
    else
      DeliveryConsumes(w, cap);
      match Assemble(r.rest, cap)
      case Whole(data, rest) => Whole(r.message.payload + data, rest)
      case broken => broken
  }

  lemma AssembleStep(w: Wire, cap: nat)
    requires Receive(w, cap).Delivered?
    ensures var r := Receive(w, cap);
            Assemble(w, cap) ==
            if r.message.kind == DATA_END then Whole(r.message.payload, r.rest)
            else match Assemble(r.rest, cap)
              case Whole(data, rest) => Whole(r.message.payload + data, rest)
              case broken => broken
  {
  }

  /** hs_sync_receive as written: only the payload of the DataEnd frame survives the loop. */
  function AssembleLast(w: Wire, cap: nat): Assembled
    decreases |w.bytes|
  {
    var r := Receive(w, cap);
    if !r.Delivered? then Broken(r.rest, r.Closed?)
    else if r.message.kind == DATA_END then Whole(r.message.payload, r.rest)
    else
      DeliveryConsumes(w, cap);
      AssembleLast(r.rest, cap)
  }

  lemma AssembleLastStep(w: Wire, cap: nat)
    requires Receive(w, cap).Delivered?
    ensures var r := Receive(w, cap);
            AssembleLast(w, cap) ==
            if r.message.kind == DATA_END then Whole(r.message.payload, r.rest) else AssembleLast(r.rest, cap)
  {
  }

  // ===== any frames, any reads =====

  /** Frames that the receive loop goes past: no DataEnd (7) among them, each acceptable. */
  predicate Middle(ms: seq<Frame>, cap: nat) {
    forall i :: 0 <= i < |ms| ==> ms[i].kind != 7 && Acceptable(ms[i], cap)
  }

  function Joined(ms: seq<Frame>): seq<byte> {
    if ms == [] then [] else ms[0].payload + Joined(ms[1..])
  }

  /** A receive loop that gives this payload and leaves this stream if no read it makes fails, and an error
      with the socket open if one does. */
  predicate Comes(w: Wire, a: Assembled, data: seq<byte>, tail: seq<byte>) {
    && Later(w, a.rest)
    && if Steady(Met(w, a.rest)) then a == Whole(data, a.rest) && a.rest.bytes == tail else a == Broken(a.rest, false)
  }

  /** A receive loop that comes to an error; the socket is closed exactly if no read failed and the stream ends
      where a message should be. */
  predicate Fails(w: Wire, a: Assembled, tail: seq<byte>, cap: nat) {
    Later(w, a.rest) && a.Broken? && (a.eof <==> Steady(Met(w, a.rest)) && Decode(tail, cap) == Cut)
  }

  /** The frame in front, received with any reads. */
  lemma ReceiveFirst(w: Wire, m: Frame, tail: seq<byte>, cap: nat)
    requires w.bytes == Encode(m) + tail && Acceptable(m, cap)
    ensures var r := Receive(w, cap);
            && Later(w, r.rest)
            && if Steady(Met(w, r.rest)) then r == Delivered(m, r.rest) && r.rest.bytes == tail else r.Refused?
  {
    ReceiveExactly(w, cap);
    DecodeEncode(m, tail, cap);
  }

  lemma FrontOfAll(w: Wire, ms: seq<Frame>, tail: seq<byte>)
    requires ms != [] && w.bytes == EncodeAll(ms) + tail
    ensures w.bytes == Encode(ms[0]) + (EncodeAll(ms[1..]) + tail)
  {
    Associates(Encode(ms[0]), EncodeAll(ms[1..]), tail);
  }

  lemma ComesAfter(w: Wire, body: Wire, front: seq<byte>, a: Assembled, b: Assembled, data: seq<byte>, tail: seq<byte>)
    requires Later(w, body) && Steady(Met(w, body)) && Comes(body, a, data, tail)
    requires b == if a.Whole? then Whole(front + a.data, a.rest) else a
    ensures Comes(w, b, front + data, tail)
  {
    MetAdds(w, body, a.rest);
  }

  lemma FailsAfter(w: Wire, body: Wire, a: Assembled, b: Assembled, tail: seq<byte>, cap: nat)
    requires Later(w, body) && Steady(Met(w, body)) && Fails(body, a, tail, cap) && b.Broken? && b == a
    ensures Fails(w, b, tail, cap)
  {
    MetAdds(w, body, a.rest);
  }

  /** Frames up to a DataEnd are put together, if no read on the way fails. */
  lemma {:induction false} AssembleExactly(w: Wire, ms: seq<Frame>, last: Frame, tail: seq<byte>, cap: nat)
    requires Middle(ms, cap) && last.kind == 7 && Acceptable(last, cap)
    requires w.bytes == EncodeAll(ms) + (Encode(last) + tail)
    ensures Comes(w, Assemble(w, cap), Joined(ms) + last.payload, tail)
    decreases |ms|
  {
    if ms == [] {
      assert w.bytes == Encode(last) + tail && Joined(ms) + last.payload == last.payload;
      ReceiveFirst(w, last, tail, cap);
    } else {
      FrontOfAll(w, ms, Encode(last) + tail);
      ReceiveFirst(w, ms[0], EncodeAll(ms[1..]) + (Encode(last) + tail), cap);
      var r := Receive(w, cap);
      if r.Delivered? {
        AssembleStep(w, cap);
        AssembleExactly(r.rest, ms[1..], last, tail, cap);
        Associates(ms[0].payload, Joined(ms[1..]), last.payload);
        ComesAfter(w, r.rest, ms[0].payload, Assemble(r.rest, cap), Assemble(w, cap), Joined(ms[1..]) + last.payload,
                   tail);
      }
    }
  }

  /** As written only the DataEnd is kept. */
  lemma {:induction false} AssembleLastExactly(w: Wire, ms: seq<Frame>, last: Frame, tail: seq<byte>, cap: nat)
    requires Middle(ms, cap) && last.kind == 7 && Acceptable(last, cap)
    requires w.bytes == EncodeAll(ms) + (Encode(last) + tail)
    ensures Comes(w, AssembleLast(w, cap), last.payload, tail)
    decreases |ms|
  {
    if ms == [] {
      assert w.bytes == Encode(last) + tail;
      ReceiveFirst(w, last, tail, cap);
    } else {
      FrontOfAll(w, ms, Encode(last) + tail);
      ReceiveFirst(w, ms[0], EncodeAll(ms[1..]) + (Encode(last) + tail), cap);
      var r := Receive(w, cap);
      if r.Delivered? {
        AssembleLastStep(w, cap);
        AssembleLastExactly(r.rest, ms[1..], last, tail, cap);
        var a := AssembleLast(r.rest, cap);
        assert a.Whole? ==> [] + a.data == a.data;
        assert [] + last.payload == last.payload;
        ComesAfter(w, r.rest, [], a, AssembleLast(w, cap), last.payload, tail);
      }
    }
  }

  /** Without a DataEnd in front of the end of the stream or of a header that is refused, both loops fail. */
  lemma {:induction false} AssembleFails(w: Wire, ms: seq<Frame>, tail: seq<byte>, cap: nat)
    requires Middle(ms, cap) && w.bytes == EncodeAll(ms) + tail && !Decode(tail, cap).Parsed?
    ensures Fails(w, Assemble(w, cap), tail, cap) && Fails(w, AssembleLast(w, cap), tail, cap)
    decreases |ms|
  {
    if ms == [] {
      assert w.bytes == tail;
      ReceiveExactly(w, cap);
    } else {
      FrontOfAll(w, ms, tail);
      ReceiveFirst(w, ms[0], EncodeAll(ms[1..]) + tail, cap);
      var r := Receive(w, cap);
      if r.Delivered? {
        AssembleStep(w, cap);
        AssembleLastStep(w, cap);
        AssembleFails(r.rest, ms[1..], tail, cap);
        FailsAfter(w, r.rest, Assemble(r.rest, cap), Assemble(w, cap), tail, cap);
        FailsAfter(w, r.rest, AssembleLast(r.rest, cap), AssembleLast(w, cap), tail, cap);
      }
    }
  }

  // ===== the frames of one payload =====

  /** End to end: the frames of a payload, sent over a stream that is read in arbitrary pieces, are put
      together to that payload, and what follows stays on the stream. */
  lemma {:induction false} Delivery(w: Wire, p: Payload, room: positive, id: u32, tail: seq<byte>, cap: nat)
    requires p != [] && Steady(w.plan) && w.bytes == EncodeAll(Fragments(p, room, id)) + tail
    requires Min(|p|, room) <= cap
    ensures var r := Assemble(w, cap); r.Whole? && r.data == p && r.rest.bytes == tail && Steady(r.rest.plan)
    decreases |p|
  {
    var first, rest := NextFrame(p, room, id), p[Min(|p|, room)..];
    var others := Fragments(rest, room, IdAfter(id, 1));
    FrontFrame(w, p, room, id, tail);
    DeliversFirst(w, first, EncodeAll(others) + tail, cap);
    if |p| <= room {
      assert first.payload == p;
    } else {
      assert p == first.payload + rest;
      Delivery(Receive(w, cap).rest, rest, room, IdAfter(id, 1), tail, cap);
    }
  }

  /** Reassembly takes an acceptable frame off the stream and stops behind a DataEnd. */
  lemma DeliversFirst(w: Wire, first: Frame, behind: seq<byte>, cap: nat)
    requires Steady(w.plan) && w.bytes == Encode(first) + behind && Acceptable(first, cap)
    ensures var r := Receive(w, cap);
            && r.Delivered? && r.rest.bytes == behind && Steady(r.rest.plan)
            && Assemble(w, cap) ==
               if first.kind == DATA_END then Whole(first.payload, r.rest)
               else match Assemble(r.rest, cap)
                 case Whole(data, rest) => Whole(first.payload + data, rest)
                 case broken => broken
  {
    ReceiveFront(w, first, behind, cap);
    AssembleStep(w, cap);
  }

  /** A receiver whose buffer cannot take even the first frame gets nothing. */
  lemma DeliveryNeedsRoom(w: Wire, p: Payload, room: positive, id: u32, tail: seq<byte>, cap: nat)
    requires p != [] && Steady(w.plan) && w.bytes == EncodeAll(Fragments(p, room, id)) + tail
    requires Min(|p|, room) > cap
    ensures Assemble(w, cap).Broken?
  {
    FrontFrame(w, p, room, id, tail);
    ReceiveFront(w, NextFrame(p, room, id),
                 EncodeAll(Fragments(p[Min(|p|, room)..], room, IdAfter(id, 1))) + tail, cap);
  }

  /** The stream of a payload's frames starts with the first frame. */
  lemma FrontFrame(w: Wire, p: Payload, room: positive, id: u32, tail: seq<byte>)
    requires p != [] && w.bytes == EncodeAll(Fragments(p, room, id)) + tail
    ensures var rest := Fragments(p[Min(|p|, room)..], room, IdAfter(id, 1));
            w.bytes == Encode(NextFrame(p, room, id)) + (EncodeAll(rest) + tail)
    ensures |p| <= room ==> EncodeAll(Fragments(p[Min(|p|, room)..], room, IdAfter(id, 1))) + tail == tail
  {
    var first, others := NextFrame(p, room, id), Fragments(p[Min(|p|, room)..], room, IdAfter(id, 1));
    assert EncodeAll(Fragments(p, room, id)) == Encode(first) + EncodeAll(others) by {
      FirstFragment(p, room, id);
      EncodeAllCons(first, others);
    }
    Associates(Encode(first), EncodeAll(others), tail);
    if |p| <= room {
      assert p[Min(|p|, room)..] == [];
      assert EncodeAll(others) == [];
    }
  }

  lemma Associates<X>(a: seq<X>, b: seq<X>, c: seq<X>)
    ensures (a + b) + c == a + (b + c)
  {
  }

  /** On the same stream the receiver as written returns the last fragment. */
  lemma {:induction false} LastFragmentOnly(w: Wire, p: Payload, room: positive, id: u32, tail: seq<byte>, cap: nat)
    requires p != [] && Steady(w.plan) && w.bytes == EncodeAll(Fragments(p, room, id)) + tail
    requires Min(|p|, room) <= cap
    ensures Fragments(p, room, id) != []
    ensures var fs := Fragments(p, room, id);
            var r := AssembleLast(w, cap);
            r.Whole? && r.data == fs[|fs| - 1].payload && r.rest.bytes == tail
    decreases |p|
  {
    var first, rest := NextFrame(p, room, id), p[Min(|p|, room)..];
    FirstFragment(p, room, id);
    FrontFrame(w, p, room, id, tail);
    ReceiveFront(w, first, EncodeAll(Fragments(rest, room, IdAfter(id, 1))) + tail, cap);
    if |p| > room {
      LastFragmentOnly(Receive(w, cap).rest, rest, room, IdAfter(id, 1), tail, cap);
    }
  }

  /** So it returns the payload exactly when that fits one frame. */
  lemma ReceiveAsWrittenExact(w: Wire, p: Payload, room: positive, id: u32, tail: seq<byte>, cap: nat)
    requires p != [] && Steady(w.plan) && w.bytes == EncodeAll(Fragments(p, room, id)) + tail
    requires Min(|p|, room) <= cap
    ensures AssembleLast(w, cap).Whole?
    ensures AssembleLast(w, cap).data == p <==> |p| <= room
  {
    LastFragmentOnly(w, p, room, id, tail, cap);
    LastFragmentSize(p, room, id);
    if |p| <= room {
      FirstFragment(p, room, id);
    }
  }

  /** The last fragment is shorter than a payload that needs more than one. */
  lemma LastFragmentSize(p: Payload, room: positive, id: u32)
    requires p != []
    ensures var fs := Fragments(p, room, id); fs != [] && |fs[|fs| - 1].payload| <= room
  {
    FragmentsNonEmpty(p, room, id);
    FragmentAt(p, room, id, |Fragments(p, room, id)| - 1);
  }
}
