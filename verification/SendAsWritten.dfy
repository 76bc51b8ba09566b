/** hs_sync_send exactly as src/client.c:204-252 has it. Its loop need not end, so a call is described
    by its state after any number of passes. */
module SendAsWritten {
  import opened ByteOrder
  import opened Transport
  import opened Message
  import opened Framing
  import opened Segmentation
  import C = Client
  import R = ReceiveAsWritten

  /** `frames` is history: every frame handed to msg_send so far. */
  datatype Sending = Sending(remaining: u64, messageId: u32, out: Outbox, frames: seq<Frame>)

  /** Lines 213-219, in 64-bit arithmetic; the division traps when max is 16. */
  function Begin(length: u64, max: u64, id: u32, o: Outbox): Sending
    requires max != MSG_HEADER_SIZE
  {
    var room := (max + (TWO_64 - MSG_HEADER_SIZE)) % TWO_64;
    var count := length / room;
    var whole := count * max % TWO_64;
    Sending(if length % room != 0 then (length % room + MSG_HEADER_SIZE) % TWO_64 else whole, id, o, [])
  }

  /** One pass of the loop: the frame carries the whole buffer, and the result of msg_send, error or
      not, is subtracted. */
  function Pass(s: Sending, data: Payload, max: u64): Sending {
    var m := Message(if s.remaining > max then DATA else DATA_END, CC_RMT_NOT_DELIVERED, s.messageId, data);
    var sent := WriteCount(s.out, Encode(m));
    Sending((s.remaining - sent) % TWO_64, IdAfter(s.messageId, 1), AfterWrite(s.out, Encode(m)), s.frames + [m])
  }

  /** The state after at most k passes. */
  function Passes(s: Sending, data: Payload, max: u64, k: nat): Sending
    decreases k
  {
    if k == 0 || s.remaining == 0 then s else Passes(Pass(s, data, max), data, max, k - 1)
  }

  /** The call ends after k passes having sent the fragments of the payload, all accepted. */
  predicate SendsFragments(data: Payload, max: u64, id: u32, o: Outbox, k: nat)
    requires max > MSG_HEADER_SIZE
  {
    var s := Passes(Begin(|data|, max, id, o), data, max, k);
    var fs := Fragments(data, max - MSG_HEADER_SIZE, id);
    s.remaining == 0 && s.frames == fs && s.out.sent == o.sent + EncodeAll(fs)
  }

  /** The single frame of a payload that fits one. */
  function OnlyFrame(data: Payload, id: u32): Frame {
    Message(DATA_END, CC_RMT_NOT_DELIVERED, id, data)
  }

  lemma BeginSmall(data: Payload, max: u64, id: u32, o: Outbox)
    requires max > MSG_HEADER_SIZE && 0 < |data| <= max - MSG_HEADER_SIZE
    ensures Begin(|data|, max, id, o) == Sending(|data| + MSG_HEADER_SIZE, id, o, [])
  {
    var room := max - MSG_HEADER_SIZE;
    assert (max + (TWO_64 - MSG_HEADER_SIZE)) % TWO_64 == room;
    if |data| == room {
      DivModUnique(|data|, room, 1, 0);
    } else {
      DivModUnique(|data|, room, 0, |data|);
    }
  }

  lemma BeginEmpty(max: u64, id: u32, o: Outbox)
    requires max != MSG_HEADER_SIZE
    ensures Begin(0, max, id, o) == Sending(0, id, o, [])
  {
    DivModUnique(0, (max + (TWO_64 - MSG_HEADER_SIZE)) % TWO_64, 0, 0);
  }

  /** A limit below the header size makes the room wrap, and the whole payload the remainder. */
  lemma BeginWrapped(data: Payload, max: u64, id: u32, o: Outbox)
    requires max < MSG_HEADER_SIZE && data != []
    ensures Begin(|data|, max, id, o) == Sending(|data| + MSG_HEADER_SIZE, id, o, [])
  {
    DivModUnique(|data|, max + (TWO_64 - MSG_HEADER_SIZE), 0, |data|);
  }

  lemma WholeFramesCount(length: positive, max: nat)
    requires max > MSG_HEADER_SIZE && length % (max - MSG_HEADER_SIZE) == 0 && MSG_HEADER_SIZE + length <= MAX_WIRE_SIZE
    ensures 0 < length / (max - MSG_HEADER_SIZE) * max < TWO_64
  {
    var room := max - MSG_HEADER_SIZE;
    var q := length / room;
    assert length == room * q;
    ProductAtLeast(room, q);
    assert q * max == length + q * MSG_HEADER_SIZE;
    ProductAtMost(room, q);
  }

  lemma BeginNonEmpty(data: Payload, max: u64, id: u32, o: Outbox)
    requires max != MSG_HEADER_SIZE && data != []
    ensures Begin(|data|, max, id, o).remaining > 0
  {
    if max < MSG_HEADER_SIZE {
      BeginWrapped(data, max, id, o);
    } else {
      assert (max + (TWO_64 - MSG_HEADER_SIZE)) % TWO_64 == max - MSG_HEADER_SIZE;
      if |data| % (max - MSG_HEADER_SIZE) == 0 {
        WholeFramesCount(|data|, max);
      }
    }
  }

  lemma ProductAtMost(d: nat, q: nat)
    requires d >= 1
    ensures q <= d * q
  {
    assert d * q == (d - 1) * q + q;
  }

  lemma BeginPart(length: u64, max: u64, id: u32, o: Outbox)
    requires max > 16 && length % (max - 16) != 0
    ensures Begin(length, max, id, o).remaining == length % (max - 16) + 16 < max
  {
    var room := max - 16;
    assert (max + (TWO_64 - MSG_HEADER_SIZE)) % TWO_64 == room;
    DivModUnique(length % room + 16, TWO_64, 0, length % room + 16);
  }

  lemma WholeFramesExceed(length: nat, max: nat)
    requires max > 16 && length > max - 16 && length % (max - 16) == 0
    ensures length / (max - 16) * max > max
  {
    var room := max - 16;
    var q := length / room;
    assert length == room * q;
    assert q >= 2;
    ProductAtLeast(max, q - 1);
    assert q * max == max * (q - 1) + max;
  }

  lemma BeginWhole(data: Payload, max: u64, id: u32, o: Outbox)
    requires max > 16 && |data| > max - 16 && |data| % (max - 16) == 0
    ensures Begin(|data|, max, id, o).remaining == |data| / (max - 16) * max > max
  {
    assert (max + (TWO_64 - MSG_HEADER_SIZE)) % TWO_64 == max - 16;
    WholeFramesCount(|data|, max);
    WholeFramesExceed(|data|, max);
  }

  lemma FirstPass(s: Sending, data: Payload, max: u64)
    requires s.remaining > 0 && s.frames == []
    ensures Passes(s, data, max, 1).frames == [Message(if s.remaining > max then 6 else 7, 0, s.messageId, data)]
  {
    assert Passes(s, data, max, 1) == Pass(s, data, max);
  }

  /** A payload for more than one frame: line 218 assigns the last, partial frame's size instead of adding it,
      so all the call counts on is that frame, and the first frame, which carries everything, is already
      typed DataEnd (7) - unless the payload fills whole frames, when it is typed Data (6). */
  lemma BeginLarge(data: Payload, max: u64, id: u32, o: Outbox)
    requires 16 < max < |data| + 16
    ensures var part := |data| % (max - 16);
            && Begin(|data|, max, id, o).remaining == (if part != 0 then part + 16 else |data| / (max - 16) * max)
            && Passes(Begin(|data|, max, id, o), data, max, 1).frames ==
               [Message(if part != 0 then 7 else 6, 0, id, data)]
  {
    if |data| % (max - 16) != 0 {
      BeginPart(|data|, max, id, o);
    } else {
      BeginWhole(data, max, id, o);
    }
    FirstPass(Begin(|data|, max, id, o), data, max);
  }

  /** The failing ones among the writes met. */
  function FailedWrites(plan: seq<WriteEvent>): nat {
    if plan == [] then 0 else (if plan[0].WriteFails? then 1 else 0) + FailedWrites(plan[1..])
  }

  /** One pass takes the bytes accepted off the count, and adds one to it if the write fails. */
  predicate Accounted(s: Sending, r: Sending) {
    && LaterOut(s.out, r.out)
    && (r.remaining + |r.out.sent|) % TWO_64 ==
       (s.remaining + |s.out.sent| + FailedWrites(MetOut(s.out, r.out))) % TWO_64
  }

  lemma Subtracts(remaining: u64, n: int, sent: nat)
    requires -1 <= n < TWO_64
    ensures ((remaining - n) % TWO_64 + (sent + Max0(n))) % TWO_64 ==
            (remaining + sent + (if n < 0 then 1 else 0)) % TWO_64
  {
    var left := (remaining - n) % TWO_64;
    if remaining < n {
      assert left == remaining - n + TWO_64;
      assert left + (sent + n) == TWO_64 + (remaining + sent);
    } else if remaining - n == TWO_64 {
      assert left == 0;
      assert remaining + sent + 1 == TWO_64 + sent;
    } else {
      assert left == remaining - n;
    }
  }

  lemma PassAccounts(s: Sending, data: Payload, max: u64)
    ensures Accounted(s, Pass(s, data, max))
  {
    var m := Message(if s.remaining > max then DATA else DATA_END, CC_RMT_NOT_DELIVERED, s.messageId, data);
    var r := Pass(s, data, max);
    var n := WriteCount(s.out, Encode(m));
    Subtracts(s.remaining, n, |s.out.sent|);
    assert |r.out.sent| == |s.out.sent| + Max0(n);
    OneWrite(s.out, Encode(m));
  }

  lemma OneWrite(o: Outbox, bytes: seq<byte>)
    ensures LaterOut(o, AfterWrite(o, bytes))
    ensures FailedWrites(MetOut(o, AfterWrite(o, bytes))) == if WriteCount(o, bytes) < 0 then 1 else 0
  {
    assert MetOut(o, AfterWrite(o, bytes)) == if o.plan == [] then [] else [o.plan[0]];
  }

  lemma {:induction false} FailedWritesAdd(a: seq<WriteEvent>, b: seq<WriteEvent>)
    ensures FailedWrites(a + b) == FailedWrites(a) + FailedWrites(b)
  {
    if a == [] {
      assert a + b == b;
    } else {
      FailedWritesAdd(a[1..], b);
      assert (a + b)[0] == a[0] && (a + b)[1..] == a[1..] + b;
    }
  }

  lemma CongruentSums(a: nat, b: nat, c: nat)
    requires a % TWO_64 == b % TWO_64
    ensures (a + c) % TWO_64 == (b + c) % TWO_64
  {
    DivModUnique(a + c, TWO_64, (b + c) / TWO_64 + (a / TWO_64 - b / TWO_64), (b + c) % TWO_64);
  }

  lemma AccountedTwice(s: Sending, r: Sending, q: Sending)
    requires Accounted(s, r) && Accounted(r, q)
    ensures Accounted(s, q)
  {
    var x, y := FailedWrites(MetOut(s.out, r.out)), FailedWrites(MetOut(r.out, q.out));
    MetOutAdds(s.out, r.out, q.out);
    FailedWritesAdd(MetOut(s.out, r.out), MetOut(r.out, q.out));
    CongruentSums(r.remaining + |r.out.sent|, s.remaining + |s.out.sent| + x, y);
  }

  /** The count after any number of passes: what it was, less the bytes accepted since, plus one for every
      write that failed, in 64 bits. The call is over as soon as that is 0. */
  lemma {:induction false} CountsDown(s: Sending, data: Payload, max: u64, k: nat, r: Sending)
    requires r == Passes(s, data, max, k)
    ensures Accounted(s, r)
    decreases k
  {
    if k == 0 || s.remaining == 0 {
      assert MetOut(s.out, s.out) == [];
    } else {
      PassAccounts(s, data, max);
      CountsDown(Pass(s, data, max), data, max, k - 1, r);
      AccountedTwice(s, Pass(s, data, max), r);
    }
  }

  /** Frames accumulate in front of whatever comes later. */
  lemma {:induction false} FramesGrow(s: Sending, data: Payload, max: u64, k: nat)
    ensures s.frames <= Passes(s, data, max, k).frames
    decreases k
  {
    if k > 0 && s.remaining != 0 {
      FramesGrow(Pass(s, data, max), data, max, k - 1);
    }
  }

  /** If exactly one frame was ever handed over and the loop has ended, one pass brought `remaining` to 0. */
  lemma OneFrameOnePass(s: Sending, data: Payload, max: u64, k: nat)
    requires s.frames == [] && s.remaining > 0
    requires Passes(s, data, max, k).remaining == 0 && |Passes(s, data, max, k).frames| == 1
    ensures Pass(s, data, max).remaining == 0
  {
    var next := Pass(s, data, max);
    if next.remaining != 0 && k > 1 {
      FramesGrow(Pass(next, data, max), data, max, k - 2);
    }
  }

  /** A sender that is given more than one frame's worth hands over the whole buffer first. */
  lemma FirstFrameIsWhole(data: Payload, max: u64, id: u32, o: Outbox, k: nat)
    requires max != MSG_HEADER_SIZE && data != [] && k > 0
    ensures var fs := Passes(Begin(|data|, max, id, o), data, max, k).frames;
            |fs| >= 1 && fs[0].payload == data
  {
    BeginNonEmpty(data, max, id, o);
    FramesGrow(Pass(Begin(|data|, max, id, o), data, max), data, max, k - 1);
  }

  lemma SmallSuffices(data: Payload, max: u64, id: u32, o: Outbox)
    requires max > MSG_HEADER_SIZE && 0 < |data| <= max - MSG_HEADER_SIZE
    requires WriteCount(o, Encode(OnlyFrame(data, id))) == MSG_HEADER_SIZE + |data|
    ensures SendsFragments(data, max, id, o, 1)
  {
    WritesOnlyFrame(data, max, id, o);
    BeginSmall(data, max, id, o);
    EncodeAllCons(OnlyFrame(data, id), []);
  }

  lemma FragmentsNeedSmall(data: Payload, max: u64, id: u32, o: Outbox, k: nat)
    requires max > MSG_HEADER_SIZE && data != [] && SendsFragments(data, max, id, o, k)
    ensures |data| <= max - MSG_HEADER_SIZE
    ensures WriteCount(o, Encode(OnlyFrame(data, id))) == MSG_HEADER_SIZE + |data|
  {
    BeginNonEmpty(data, max, id, o);
    FirstFrameIsWhole(data, max, id, o, k);
    BeginSmall(data, max, id, o);
    OneFrameOnePass(Begin(|data|, max, id, o), data, max, k);
  }

  /** hs_sync_send as written does its job exactly when there is nothing to send, or the payload fits one
      frame and the one write is accepted in full. */
  lemma SendExact(data: Payload, max: u64, id: u32, o: Outbox)
    requires max > MSG_HEADER_SIZE
    ensures (exists k: nat :: SendsFragments(data, max, id, o, k)) <==>
            data == [] ||
            (|data| <= max - MSG_HEADER_SIZE &&
             WriteCount(o, Encode(OnlyFrame(data, id))) == MSG_HEADER_SIZE + |data|)
  {
    if data == [] {
      BeginEmpty(max, id, o);
      assert SendsFragments(data, max, id, o, 0);
    } else {
      if |data| <= max - MSG_HEADER_SIZE && WriteCount(o, Encode(OnlyFrame(data, id))) == MSG_HEADER_SIZE + |data| {
        SmallSuffices(data, max, id, o);
      }
      if k: nat :| SendsFragments(data, max, id, o, k) {
        FragmentsNeedSmall(data, max, id, o, k);
      }
    }
  }

  /** Every frame is within the negotiated size, however long the loop runs. */
  predicate WithinLimit(data: Payload, max: u64, id: u32, o: Outbox, k: nat)
    requires max != MSG_HEADER_SIZE
  {
    var fs := Passes(Begin(|data|, max, id, o), data, max, k).frames;
    forall i :: 0 <= i < |fs| ==> |Encode(fs[i])| <= max
  }

  predicate AllCarry(frames: seq<Frame>, data: Payload) {
    forall i :: 0 <= i < |frames| ==> frames[i].payload == data
  }

  lemma {:induction false} EveryFrameIsWhole(s: Sending, data: Payload, max: u64, k: nat, r: Sending)
    requires AllCarry(s.frames, data) && r == Passes(s, data, max, k)
    ensures AllCarry(r.frames, data)
    decreases k
  {
    if k > 0 && s.remaining != 0 {
      assert AllCarry(Pass(s, data, max).frames, data);
      EveryFrameIsWhole(Pass(s, data, max), data, max, k - 1, r);
    }
  }

  lemma NothingToSend(max: u64, id: u32, o: Outbox, k: nat)
    requires max != MSG_HEADER_SIZE
    ensures Passes(Begin(0, max, id, o), [], max, k).frames == []
  {
    BeginEmpty(max, id, o);
  }

  /** The size limit is respected exactly when there is nothing to send or the whole payload fits one frame. */
  lemma LimitExact(data: Payload, max: u64, id: u32, o: Outbox)
    requires max != MSG_HEADER_SIZE
    ensures (forall k: nat :: WithinLimit(data, max, id, o, k)) <==> data == [] || MSG_HEADER_SIZE + |data| <= max
  {
    if data == [] {
      forall k: nat
        ensures WithinLimit(data, max, id, o, k)
      {
        NothingToSend(max, id, o, k);
      }
    } else if MSG_HEADER_SIZE + |data| <= max {
      forall k: nat
        ensures WithinLimit(data, max, id, o, k)
      {
        var s := Begin(|data|, max, id, o);
        EveryFrameIsWhole(s, data, max, k, Passes(s, data, max, k));
      }
    } else {
      FirstFrameIsWhole(data, max, id, o, 1);
      assert !WithinLimit(data, max, id, o, 1);
    }
  }

  /** With the default limit of 256, 241 bytes already go out as one frame of 257. */
  lemma OversizedFrame(o: Outbox)
    ensures var data: Payload := seq(241, _ => 0);
            !WithinLimit(data, 256, 0xFFFF_FF00, o, 1)
  {
    FirstFrameIsWhole(seq(241, _ => 0), 256, 0xFFFF_FF00, o, 1);
  }

  /** Frame i carries the id advanced by 2i, and the counter stands behind the last frame. */
  predicate Numbered(s: Sending, id: u32) {
    && s.messageId == IdAfter(id, |s.frames|)
    && forall i :: 0 <= i < |s.frames| ==> s.frames[i].parameter == IdAfter(id, i)
  }

  lemma PassNumbers(s: Sending, data: Payload, max: u64, id: u32)
    requires Numbered(s, id)
    ensures Numbered(Pass(s, data, max), id)
  {
    IdAfterAdds(id, |s.frames|, 1);
  }

  lemma {:induction false} PassesNumber(s: Sending, data: Payload, max: u64, k: nat, id: u32, r: Sending)
    requires Numbered(s, id) && r == Passes(s, data, max, k)
    ensures Numbered(r, id)
    decreases k
  {
    if k > 0 && s.remaining != 0 {
      PassNumbers(s, data, max, id);
      PassesNumber(Pass(s, data, max), data, max, k - 1, id, r);
    }
  }

  lemma NumberedAtFirst(s: Sending)
    requires s.frames == []
    ensures Numbered(s, s.messageId)
  {
  }

  /** Section 6.4 of IVI-6.1: after any number of passes, frame i of a call carries the session's message id
      advanced by 2i, and the counter stands behind the last frame. */
  lemma MessageIdsAsWritten(data: Payload, max: u64, id: u32, o: Outbox, k: nat)
    requires max != MSG_HEADER_SIZE
    ensures var r := Passes(Begin(|data|, max, id, o), data, max, k);
            r.messageId == IdAfter(id, |r.frames|) &&
            forall i :: 0 <= i < |r.frames| ==> r.frames[i].parameter == IdAfter(id, i)
  {
    var s := Begin(|data|, max, id, o);
    NumberedAtFirst(s);
    PassesNumber(s, data, max, k, id, Passes(s, data, max, k));
  }

  /** Sender and receiver both as written, down to the read loops: a payload that fits one frame, written in
      one piece, is copied to the caller of hs_sync_receive with its length, off a stream whose two reads
      are complete, whatever the receiver's buffers held before. */
  lemma EndToEndAsWritten(data: Payload, max: u64, id: u32, o: Outbox, w: Wire, tail: seq<byte>,
                          cap: nat, memory: nat -> R.Junk)
    requires max > MSG_HEADER_SIZE && 0 < |data| <= max - MSG_HEADER_SIZE && |data| <= cap < TWO_64
    requires WriteCount(o, Encode(OnlyFrame(data, id))) == MSG_HEADER_SIZE + |data|
    requires o.sent + w.bytes == Passes(Begin(|data|, max, id, o), data, max, 1).out.sent + tail
    requires R.CompleteReads(w, OnlyFrame(data, id)) && forall k :: R.Fits(memory(k), cap)
    ensures Passes(Begin(|data|, max, id, o), data, max, 1).remaining == 0
    ensures var a := R.AssembleRaw(w, cap, memory, 0);
            C.Handed(a, cap) == (|data|, data) && a.rest.bytes == tail
  {
    var m := OnlyFrame(data, id);
    WritesOnlyFrame(data, max, id, o);
    FrontCancels(o.sent, w.bytes, Encode(m), tail);
    assert R.Fits(memory(0), cap);
    R.CompleteReadsSuffice(w, m, tail, cap, memory(0).stack, memory(0).heap);
  }

  lemma WritesOnlyFrame(data: Payload, max: u64, id: u32, o: Outbox)
    requires max > MSG_HEADER_SIZE && 0 < |data| <= max - MSG_HEADER_SIZE
    requires WriteCount(o, Encode(OnlyFrame(data, id))) == MSG_HEADER_SIZE + |data|
    ensures var s := Passes(Begin(|data|, max, id, o), data, max, 1);
            s.remaining == 0 && s.out.sent == o.sent + Encode(OnlyFrame(data, id))
  {
    BeginSmall(data, max, id, o);
    var s := Begin(|data|, max, id, o);
    assert Passes(s, data, max, 1) == Pass(s, data, max);
  }
}
