/** The result contract of tcp_read and tcp_write: a call fails, meets the end of the stream, or
    moves at least one and at most the requested number of bytes. Which of these happens is decided
    by a plan that theorems quantify over; a call past the end of its plan moves all it can. */
module Transport {
  import opened ByteOrder

  type positive = n: nat | n >= 1 witness 1

  datatype ReadEvent = ReadFails | ReadAtMost(limit: positive)
  datatype WriteEvent = WriteFails | WriteAtMost(limit: nat)

  /** The receiving side of a connection: every byte the peer sends before it closes, in order. */
  datatype Wire = Wire(bytes: seq<byte>, plan: seq<ReadEvent>)

  /** The sending side of a connection: the bytes accepted so far. */
  datatype Outbox = Outbox(sent: seq<byte>, plan: seq<WriteEvent>)

  function Min(a: nat, b: nat): nat {
    if a <= b then a else b
  }

  function Max0(n: int): nat {
    if n > 0 then n else 0
  }

  /** Result of tcp_read when `want` bytes are asked for. */
  function ReadCount(w: Wire, want: positive): (n: int)
    ensures -1 <= n <= want && n <= |w.bytes|
    ensures n == 0 ==> w.bytes == []
  {
    if w.plan == [] then Min(want, |w.bytes|)
    else match w.plan[0]
      case ReadFails => -1
      case ReadAtMost(limit) => Min(Min(limit, want), |w.bytes|)
  }

  function AfterRead(w: Wire, want: positive): (r: Wire)
    ensures r.bytes == w.bytes[Max0(ReadCount(w, want))..]
  {
    Wire(w.bytes[Max0(ReadCount(w, want))..], if w.plan == [] then [] else w.plan[1..])
  }

  /** No read of this plan fails. */
  predicate Steady(plan: seq<ReadEvent>) {
    forall i :: 0 <= i < |plan| ==> plan[i].ReadAtMost?
  }

  /** A wire after some more reads, and the part of its plan that they have met. */
  predicate Later(before: Wire, after: Wire) {
    |after.plan| <= |before.plan| && after.plan == before.plan[|before.plan| - |after.plan|..]
  }

  function Met(before: Wire, after: Wire): seq<ReadEvent>
    requires Later(before, after)
  {
    before.plan[..|before.plan| - |after.plan|]
  }

  lemma MetAdds(a: Wire, b: Wire, c: Wire)
    requires Later(a, b) && Later(b, c)
    ensures Later(a, c) && Met(a, c) == Met(a, b) + Met(b, c)
    ensures Steady(Met(a, c)) <==> Steady(Met(a, b)) && Steady(Met(b, c))
  {
    assert Met(a, c) == Met(a, b) + Met(b, c);
    assert forall i :: 0 <= i < |Met(b, c)| ==> Met(b, c)[i] == Met(a, c)[|Met(a, b)| + i];
    assert forall i :: 0 <= i < |Met(a, b)| ==> Met(a, b)[i] == Met(a, c)[i];
  }

  /** How many of these reads fail. */
  function Failures(plan: seq<ReadEvent>): nat {
    if plan == [] then 0 else (if plan[0].ReadFails? then 1 else 0) + Failures(plan[1..])
  }

  /** Result of tcp_write when `bytes` are offered. */
  function WriteCount(o: Outbox, bytes: seq<byte>): (n: int)
    ensures -1 <= n <= |bytes|
  {
    if o.plan == [] then |bytes|
    else if o.plan[0].WriteFails? then -1
    else Min(o.plan[0].limit, |bytes|)
  }

  function AfterWrite(o: Outbox, bytes: seq<byte>): (r: Outbox) {
    var n := WriteCount(o, bytes);
    Outbox(if n > 0 then o.sent + bytes[..n] else o.sent, if o.plan == [] then [] else o.plan[1..])
  }

  /** The part of its plan that the writes between two states of a stream have met. */
  predicate LaterOut(before: Outbox, after: Outbox) {
    |after.plan| <= |before.plan| && after.plan == before.plan[|before.plan| - |after.plan|..]
  }

  function MetOut(before: Outbox, after: Outbox): seq<WriteEvent>
    requires LaterOut(before, after)
  {
    before.plan[..|before.plan| - |after.plan|]
  }

  lemma MetOutAdds(a: Outbox, b: Outbox, c: Outbox)
    requires LaterOut(a, b) && LaterOut(b, c)
    ensures LaterOut(a, c) && MetOut(a, c) == MetOut(a, b) + MetOut(b, c)
    ensures NoWriteFails(MetOut(a, c)) <==> NoWriteFails(MetOut(a, b)) && NoWriteFails(MetOut(b, c))
  {
    assert MetOut(a, c) == MetOut(a, b) + MetOut(b, c);
    assert forall i :: 0 <= i < |MetOut(b, c)| ==> MetOut(b, c)[i] == MetOut(a, c)[|MetOut(a, b)| + i];
    assert forall i :: 0 <= i < |MetOut(a, b)| ==> MetOut(a, b)[i] == MetOut(a, c)[i];
  }

  predicate NoWriteFails(plan: seq<WriteEvent>) {
    forall i :: 0 <= i < |plan| ==> plan[i].WriteAtMost?
  }

  /** A TCP socket descriptor. `closed` counts the close() calls made on it. */
  class Socket {
    var wire: Wire
    var out: Outbox
    var closed: nat

    constructor (wire: Wire, out: Outbox)
      ensures this.wire == wire && this.out == out && closed == 0
    {
      this.wire := wire;
      this.out := out;
      closed := 0;
    }

    /** tcp_read into buf[at..]. */
    method Read(buf: array<byte>, at: nat, want: positive) returns (n: int)
      requires at + want <= buf.Length
      modifies this`wire, buf
      ensures n == ReadCount(old(wire), want) && wire == AfterRead(old(wire), want)
      ensures buf[..] == if n > 0 then old(buf[..at]) + old(wire).bytes[..n] + old(buf[at + n..])
                         else old(buf[..])
    {
      n := ReadCount(wire, want);
      if n > 0 {
        CopyInto(buf, at, wire.bytes[..n]);
      }
      wire := AfterRead(wire, want);
    }

    /** tcp_write of a whole buffer. */
    method Write(bytes: seq<byte>) returns (n: int)
      modifies this`out
      ensures n == WriteCount(old(out), bytes) && out == AfterWrite(old(out), bytes)
    {
      n := WriteCount(out, bytes);
      out := AfterWrite(out, bytes);
    }

    /** tcp_disconnect. */
    method Disconnect()
      modifies this`closed
      ensures closed == old(closed) + 1
    {
      closed := closed + 1;
    }
  }

  /** memcpy(buf + at, bytes, |bytes|). */
  method CopyInto(buf: array<byte>, at: nat, bytes: seq<byte>)
    requires at + |bytes| <= buf.Length
    modifies buf
    ensures buf[..] == old(buf[..at]) + bytes + old(buf[at + |bytes|..])
  {
    for i := 0 to |bytes|
      invariant buf[..at] == old(buf[..at])
      invariant buf[at..at + i] == bytes[..i]
      invariant buf[at + |bytes|..] == old(buf[at + |bytes|..])
    {
      buf[at + i] := bytes[i];
    }
    assert buf[..] == buf[..at] + buf[at..at + |bytes|] + buf[at + |bytes|..];
  }
}
