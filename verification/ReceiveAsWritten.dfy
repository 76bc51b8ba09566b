/** The read loops of msg_receive exactly as src/message.c:162-173 and 231-244 have them: every read
    lands at the start of the destination, and a failed read (-1) is subtracted like a count. */
module ReceiveAsWritten {
  import opened ByteOrder
  import opened Transport
  import opened Message
  import opened Framing
  import opened Segmentation

  /** `Overrun`: the loop asks the transport for more bytes than the destination holds. */
  datatype Raw = Filled(buffer: seq<byte>, rest: Wire) | RawEof(rest: Wire) | Overrun

  /** One pass of the loop: what is left to read, and the buffer. */
  function Pass(w: Wire, left: positive, buffer: seq<byte>): (p: (nat, seq<byte>))
    requires left <= |buffer|
    ensures |p.1| == |buffer|
    ensures ReadCount(w, left) != 0 ==> |AfterRead(w, left).plan| < |w.plan| || (w.plan == [] && p.0 < left)
  {
    var n := ReadCount(w, left);
    (left - n, if n <= 0 then buffer else w.bytes[..n] + buffer[n..])
  }

  function FillInPlace(w: Wire, left: nat, buffer: seq<byte>): (r: Raw)
    ensures r.Filled? ==> |r.buffer| == |buffer|
    decreases |w.plan|, left
  {
    if left == 0 then Filled(buffer, w)
    else if left > |buffer| then Overrun
    else if ReadCount(w, left) == 0 then RawEof(AfterRead(w, left))
    else
      var p := Pass(w, left, buffer);
      FillInPlace(AfterRead(w, left), p.0, p.1)
  }

  lemma FillStep(w: Wire, left: positive, buffer: seq<byte>)
    requires left <= |buffer|
    ensures var p := Pass(w, left, buffer);
            FillInPlace(w, left, buffer) ==
            if ReadCount(w, left) == 0 then RawEof(AfterRead(w, left))
            else FillInPlace(AfterRead(w, left), p.0, p.1)
  {
  }

  method ReadAtStart(socket: Socket, buffer: array<byte>, left: positive) returns (n: int)
    requires left <= buffer.Length
    modifies socket`wire, buffer
    ensures n == ReadCount(old(socket.wire), left) && socket.wire == AfterRead(old(socket.wire), left)
    ensures left - n == Pass(old(socket.wire), left, old(buffer[..])).0
    ensures buffer[..] == Pass(old(socket.wire), left, old(buffer[..])).1
  {
    n := socket.Read(buffer, 0, left);
    assert n > 0 ==> buffer[..] == old(socket.wire).bytes[..n] + old(buffer[..])[n..];
  }

  method FillLoop(socket: Socket, buffer: array<byte>) returns (status: int)
    modifies socket`wire, buffer
    ensures match FillInPlace(old(socket.wire), buffer.Length, old(buffer[..]))
            case Filled(bytes, rest) => status == 0 && buffer[..] == bytes && socket.wire == rest
            case RawEof(rest) => status == 1 && socket.wire == rest
            case Overrun => status == 2
  {
    var left := buffer.Length;
    ghost var w, held := socket.wire, buffer[..];
    ghost var whole := FillInPlace(w, left, held);
    while left > 0
      invariant left >= 0 && w == socket.wire && held == buffer[..] && FillInPlace(w, left, held) == whole
      decreases |w.plan|, left
    {
      if left > buffer.Length {
        return 2;
      }
      FillStep(w, left, held);
      var n := ReadAtStart(socket, buffer, left);
      if n == 0 {
        return 1;
      }
      held := Pass(w, left, held).1;
      w := AfterRead(w, left);
      left := left - n;
    }
    status := 0;
  }

  lemma MetStep(w: Wire, want: positive, after: Wire)
    requires Later(AfterRead(w, want), after)
    ensures Later(w, after)
    ensures Failures(Met(w, after)) ==
            (if ReadCount(w, want) < 0 then 1 else 0) + Failures(Met(AfterRead(w, want), after))
  {
    if w.plan != [] {
      assert Met(w, after)[1..] == Met(AfterRead(w, want), after);
    }
  }

  /** The loop consumes what it was asked for, and one byte more for each failed read on its way: a result
      of -1 is subtracted like a count. */
  lemma {:induction false} Consumes(w: Wire, left: nat, buffer: seq<byte>)
    requires FillInPlace(w, left, buffer).Filled?
    ensures var rest := FillInPlace(w, left, buffer).rest;
            && Later(w, rest)
            && left + Failures(Met(w, rest)) + |rest.bytes| == |w.bytes|
    decreases |w.plan|, left
  {
    if left > 0 {
      FillStep(w, left, buffer);
      var p := Pass(w, left, buffer);
      Consumes(AfterRead(w, left), p.0, p.1);
      MetStep(w, left, FillInPlace(w, left, buffer).rest);
    }
  }

  /** The loop stops for the end of the stream only when there is nothing left on it: it was asked for more,
      counting failed reads, than there was. */
  lemma {:induction false} StopsAtEnd(w: Wire, left: nat, buffer: seq<byte>)
    requires FillInPlace(w, left, buffer).RawEof?
    ensures var rest := FillInPlace(w, left, buffer).rest;
            rest.bytes == [] && Later(w, rest) && left + Failures(Met(w, rest)) > |w.bytes|
    decreases |w.plan|, left
  {
    FillStep(w, left, buffer);
    if ReadCount(w, left) != 0 {
      var p := Pass(w, left, buffer);
      StopsAtEnd(AfterRead(w, left), p.0, p.1);
    }
    MetStep(w, left, FillInPlace(w, left, buffer).rest);
  }

  /** What it consumes is the front of the wire. */
  lemma {:induction false} LeavesSuffix(w: Wire, left: nat, buffer: seq<byte>)
    requires FillInPlace(w, left, buffer).Filled?
    ensures var rest := FillInPlace(w, left, buffer).rest.bytes;
            |rest| <= |w.bytes| && rest == w.bytes[|w.bytes| - |rest|..]
    decreases |w.plan|, left
  {
    if left > 0 {
      FillStep(w, left, buffer);
      var p := Pass(w, left, buffer);
      LeavesSuffix(AfterRead(w, left), p.0, p.1);
    }
  }

  lemma PassWritesBelow(w: Wire, left: positive, buffer: seq<byte>, k: nat)
    requires left <= |buffer| && 0 < ReadCount(w, left) <= k < |buffer|
    ensures Pass(w, left, buffer).1[k] == buffer[k] && Pass(w, left, buffer).0 == left - ReadCount(w, left)
    ensures |AfterRead(w, left).bytes| == |w.bytes| - ReadCount(w, left)
  {
  }

  /** When it consumes no more than that, no read fails. */
  lemma FirstReadReturns(w: Wire, left: positive, buffer: seq<byte>, f: Raw)
    requires f == FillInPlace(w, left, buffer) && f.Filled? && left + |f.rest.bytes| == |w.bytes|
    ensures left <= |buffer| && ReadCount(w, left) > 0
  {
    FillStep(w, left, buffer);
    if ReadCount(w, left) < 0 {
      Consumes(AfterRead(w, left), left + 1, buffer);
    }
  }

  /** Nor is a position written that neither the first read nor what is left then can reach. */
  lemma {:induction false} Untouched(w: Wire, left: nat, buffer: seq<byte>, k: nat)
    requires FillInPlace(w, left, buffer).Filled? && left <= |buffer| && k < |buffer|
    requires left > k ==> ReadCount(w, left) <= k && left - ReadCount(w, left) <= k
    requires left + |FillInPlace(w, left, buffer).rest.bytes| == |w.bytes|
    ensures FillInPlace(w, left, buffer).buffer[k] == buffer[k]
    decreases |w.plan|, left
  {
    if left > 0 {
      FirstReadReturns(w, left, buffer, FillInPlace(w, left, buffer));
      FillStep(w, left, buffer);
      PassWritesBelow(w, left, buffer, k);
      Untouched(AfterRead(w, left), Pass(w, left, buffer).0, Pass(w, left, buffer).1, k);
    }
  }

  /** The first `want` bytes of the wire end up in the buffer and exactly those leave the wire. */
  predicate FillsRight(w: Wire, want: nat, junk: seq<byte>)
    requires want <= |w.bytes|
  {
    var r := FillInPlace(w, want, junk);
    r.Filled? && r.buffer == w.bytes[..want] && r.rest.bytes == w.bytes[want..]
  }

  /** A buffer content the loop cannot turn into the right bytes when its first read comes short. */
  function BadJunk(w: Wire, want: positive): (junk: seq<byte>)
    requires want <= |w.bytes|
    ensures |junk| == want && junk[want - 1] != w.bytes[want - 1]
  {
    w.bytes[..want][want - 1 := if w.bytes[want - 1] == 0 then 1 else 0]
  }

  lemma ShortReadLeavesJunk(w: Wire, want: positive)
    requires want <= |w.bytes| && ReadCount(w, want) != want
    ensures !FillsRight(w, want, BadJunk(w, want))
  {
    var junk := BadJunk(w, want);
    var r := FillInPlace(w, want, junk);
    if r.Filled? && want + |r.rest.bytes| == |w.bytes| {
      Untouched(w, want, junk, want - 1);
      assert r.buffer[want - 1] != w.bytes[..want][want - 1];
    }
  }

  lemma FullRead(w: Wire, want: positive, junk: seq<byte>)
    requires want <= |w.bytes| && ReadCount(w, want) == want && |junk| == want
    ensures FillInPlace(w, want, junk) == Filled(w.bytes[..want], AfterRead(w, want))
  {
    var landed := w.bytes[..want] + junk[want..];
    assert FillInPlace(AfterRead(w, want), 0, landed) == Filled(landed, AfterRead(w, want));
    assert landed == w.bytes[..want];
  }

  /** The loop as written is right for every prior content of the buffer exactly when its first read
      returns everything. */
  lemma FillExact(w: Wire, want: positive)
    requires want <= |w.bytes|
    ensures (forall junk: seq<byte> :: |junk| == want ==> FillsRight(w, want, junk)) <==> ReadCount(w, want) == want
  {
    if ReadCount(w, want) != want {
      ShortReadLeavesJunk(w, want);
    } else {
      forall junk: seq<byte> | |junk| == want
        ensures FillsRight(w, want, junk)
      {
        FullRead(w, want, junk);
      }
    }
  }

  /** What msg_receive as written comes to: a message, a refused header, or neither (the stream ended, or the
      loop ran over its destination). */
  datatype RawReceived =
    | RawMessage(message: Message, rest: Wire)
    | RawRefused(rest: Wire)
    | RawFailed(rest: Wire, eof: bool)

  /** msg_receive as written. `stack` and `heap` are what the header struct and the malloc'ed payload
      hold before anything is read. */
  function ReceiveRaw(w: Wire, cap: nat, stack: seq<byte>, heap: seq<byte>): RawReceived
    requires |stack| == MSG_HEADER_SIZE && |heap| == cap
  {
    match FillInPlace(w, MSG_HEADER_SIZE, stack)
    case RawEof(rest) => RawFailed(rest, true)
    case Overrun => RawFailed(w, false)
    case Filled(bytes, body) =>
      var h := DecodeHeader(bytes);
      if Refuses(h, cap) then RawRefused(body)
      else match FillInPlace(body, h.payloadLength, heap[..h.payloadLength])
        case RawEof(rest) => RawFailed(rest, true)
        case Overrun => RawFailed(body, false)
        case Filled(payload, rest) => RawMessage(Message(h.kind, h.control, h.parameter, payload), rest)
  }

  /** So msg_receive as written closes the socket only at the end of the stream, and never for a failed read. */
  lemma ClosesAtEnd(w: Wire, cap: nat, stack: seq<byte>, heap: seq<byte>)
    requires |stack| == MSG_HEADER_SIZE && |heap| == cap
    ensures var r := ReceiveRaw(w, cap, stack, heap); r.RawFailed? && r.eof ==> r.rest.bytes == []
  {
    match FillInPlace(w, MSG_HEADER_SIZE, stack)
    case RawEof(_) => StopsAtEnd(w, MSG_HEADER_SIZE, stack);
    case Overrun =>
    case Filled(bytes, body) =>
      var n := DecodeHeader(bytes).payloadLength;
      if !Refuses(DecodeHeader(bytes), cap) && FillInPlace(body, n, heap[..n]).RawEof? {
        StopsAtEnd(body, n, heap[..n]);
      }
  }

  /** A frame in front that the receiver does not take, whose header read is complete, is refused with its
      payload left on the stream. */
  lemma RefusesInPlace(w: Wire, m: Frame, tail: seq<byte>, cap: nat, stack: seq<byte>, heap: seq<byte>)
    requires w.bytes == Encode(m) + tail && ReadCount(w, MSG_HEADER_SIZE) == MSG_HEADER_SIZE
    requires m.kind == 2 || m.kind == 3 || |m.payload| > cap
    requires |stack| == MSG_HEADER_SIZE && |heap| == cap
    ensures ReceiveInPlace(w, cap, stack, heap) == TurnedDown(m.payload + tail)
  {
    FullRead(w, MSG_HEADER_SIZE, stack);
    FrameSplits(m, tail);
    DecodeEncodeHeader(HeaderOf(m));
  }

  /** The same with the stream reduced to its bytes. */
  function ReceiveInPlace(w: Wire, cap: nat, stack: seq<byte>, heap: seq<byte>): Parse
    requires |stack| == MSG_HEADER_SIZE && |heap| == cap
  {
    match ReceiveRaw(w, cap, stack, heap)
    case RawMessage(m, rest) => Parsed(m, rest.bytes)
    case RawRefused(rest) => TurnedDown(rest.bytes)
    case RawFailed(_, _) => Cut
  }

  /** Both reads a frame needs are answered in full. */
  predicate CompleteReads(w: Wire, m: Frame) {
    && ReadCount(w, MSG_HEADER_SIZE) == MSG_HEADER_SIZE
    && (m.payload != [] ==> ReadCount(AfterRead(w, MSG_HEADER_SIZE), |m.payload|) == |m.payload|)
  }

  lemma CompleteReadsSuffice(w: Wire, m: Frame, tail: seq<byte>, cap: nat, stack: seq<byte>, heap: seq<byte>)
    requires w.bytes == Encode(m) + tail && Acceptable(m, cap) && CompleteReads(w, m)
    requires |stack| == MSG_HEADER_SIZE && |heap| == cap
    ensures ReceiveInPlace(w, cap, stack, heap) == Parsed(m, tail)
  {
    FullRead(w, MSG_HEADER_SIZE, stack);
    FrameSplits(m, tail);
    DecodeEncodeHeader(HeaderOf(m));
    if m.payload != [] {
      FullRead(AfterRead(w, MSG_HEADER_SIZE), |m.payload|, heap[..|m.payload|]);
    }
  }

  lemma FrameSplits(m: Frame, tail: seq<byte>)
    ensures var bytes := Encode(m) + tail;
            && bytes[..MSG_HEADER_SIZE] == EncodeHeader(HeaderOf(m))
            && bytes[MSG_HEADER_SIZE..] == m.payload + tail
    ensures (m.payload + tail)[..|m.payload|] == m.payload && (m.payload + tail)[|m.payload|..] == tail
  {
  }

  /** If the message came out right, its header and its payload were each read right. */
  lemma RightMeansBothRight(w: Wire, m: Frame, tail: seq<byte>, cap: nat, stack: seq<byte>, heap: seq<byte>)
    requires w.bytes == Encode(m) + tail && Acceptable(m, cap)
    requires |stack| == MSG_HEADER_SIZE && |heap| == cap
    requires ReceiveInPlace(w, cap, stack, heap) == Parsed(m, tail)
    ensures FillsRight(w, MSG_HEADER_SIZE, stack)
    ensures var body := FillInPlace(w, MSG_HEADER_SIZE, stack).rest;
            body.bytes == m.payload + tail && FillsRight(body, |m.payload|, heap[..|m.payload|])
  {
    FrameSplits(m, tail);
    var Filled(bytes, body) := FillInPlace(w, MSG_HEADER_SIZE, stack);
    EncodeDecodeHeader(bytes);
    assert DecodeHeader(bytes) == HeaderOf(m);
    assert body.bytes == m.payload + tail by {
      Consumes(w, MSG_HEADER_SIZE, stack);
      Consumes(body, |m.payload|, heap[..|m.payload|]);
      LeavesSuffix(w, MSG_HEADER_SIZE, stack);
    }
  }

  lemma IncompleteReadsFail(w: Wire, m: Frame, tail: seq<byte>, cap: nat)
    returns (stack: seq<byte>, heap: seq<byte>)
    requires w.bytes == Encode(m) + tail && Acceptable(m, cap) && !CompleteReads(w, m)
    ensures |stack| == MSG_HEADER_SIZE && |heap| == cap && ReceiveInPlace(w, cap, stack, heap) != Parsed(m, tail)
  {
    stack, heap := BadJunk(w, MSG_HEADER_SIZE), seq(cap, _ => 0);
    if ReadCount(w, MSG_HEADER_SIZE) != MSG_HEADER_SIZE {
      ShortReadLeavesJunk(w, MSG_HEADER_SIZE);
      if ReceiveInPlace(w, cap, stack, heap) == Parsed(m, tail) {
        RightMeansBothRight(w, m, tail, cap, stack, heap);
      }
    } else {
      var body := AfterRead(w, MSG_HEADER_SIZE);
      assert body.bytes == m.payload + tail;
      var junk := BadJunk(body, |m.payload|);
      heap := junk + heap[|m.payload|..];
      assert heap[..|m.payload|] == junk;
      ShortReadLeavesJunk(body, |m.payload|);
      if ReceiveInPlace(w, cap, stack, heap) == Parsed(m, tail) {
        RightMeansBothRight(w, m, tail, cap, stack, heap);
      }
    }
  }

  /** msg_receive as written returns the frame at the front of the stream, whatever its buffers held,
      exactly when the header read and the payload read are both complete. */
  lemma ReceiveExact(w: Wire, m: Frame, tail: seq<byte>, cap: nat)
    requires w.bytes == Encode(m) + tail && Acceptable(m, cap)
    ensures (forall stack: seq<byte>, heap: seq<byte> :: |stack| == MSG_HEADER_SIZE && |heap| == cap ==>
               ReceiveInPlace(w, cap, stack, heap) == Parsed(m, tail))
            <==> CompleteReads(w, m)
  {
    if CompleteReads(w, m) {
      forall stack: seq<byte>, heap: seq<byte> | |stack| == MSG_HEADER_SIZE && |heap| == cap
        ensures ReceiveInPlace(w, cap, stack, heap) == Parsed(m, tail)
      {
        CompleteReadsSuffice(w, m, tail, cap, stack, heap);
      }
    } else {
      var stack, heap := IncompleteReadsFail(w, m, tail, cap);
    }
  }

  // ===== hs_sync_receive on top of it =====

  /** What the buffers of one msg_receive call hold before anything is read. */
  datatype Junk = Junk(stack: seq<byte>, heap: seq<byte>)

  predicate Fits(junk: Junk, cap: nat) {
    |junk.stack| == MSG_HEADER_SIZE && |junk.heap| == cap
  }

  lemma MessageConsumes(w: Wire, cap: nat, junk: Junk)
    requires Fits(junk, cap) && ReceiveRaw(w, cap, junk.stack, junk.heap).RawMessage?
    ensures |ReceiveRaw(w, cap, junk.stack, junk.heap).rest.bytes| < |w.bytes|
  {
    Consumes(w, MSG_HEADER_SIZE, junk.stack);
    var Filled(bytes, body) := FillInPlace(w, MSG_HEADER_SIZE, junk.stack);
    Consumes(body, DecodeHeader(bytes).payloadLength, junk.heap[..DecodeHeader(bytes).payloadLength]);
  }

  /** hs_sync_receive as written over msg_receive as written: the payload of the first message that counts
      as DataEnd. `memory` is what the buffers of its n-th call hold. */
  ghost function AssembleRaw(w: Wire, cap: nat, memory: nat -> Junk, n: nat): Assembled
    requires forall k :: Fits(memory(k), cap)
    decreases |w.bytes|
  {
    assert Fits(memory(n), cap);
    match ReceiveRaw(w, cap, memory(n).stack, memory(n).heap)
    case RawRefused(rest) => Broken(rest, false)
    case RawFailed(rest, eof) => Broken(rest, eof)
    case RawMessage(m, rest) =>
      if m.kind == DATA_END then Whole(m.payload, rest)
      else
        MessageConsumes(w, cap, memory(n));
        AssembleRaw(rest, cap, memory, n + 1)
  }
}
