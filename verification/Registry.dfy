/** The subaddress registry of src/server.c: a list that grows at its head, its lookup through the payload
    pointer of a connection thread, and the handler a Data message reaches. */
module Registry {
  import opened ByteOrder
  import opened Framing
  import opened Message

  /** hs_subaddress_callbacks_t: which one it is, and whether its message_sync is set. */
  datatype Callbacks = Callbacks(address: nat, sync: bool)

  /** One hs_server_register_subaddress call. */
  datatype Registration = Registration(name: Name, callbacks: Callbacks)

  /** The registry as a map: for each name, the number of the call that registered it last. */
  function AsMap(calls: seq<Registration>): (r: map<Name, nat>)
    ensures forall name :: name in r ==> r[name] < |calls| && calls[r[name]].name == name
    ensures forall i :: 0 <= i < |calls| ==> calls[i].name in r && i <= r[calls[i].name]
  {
    if calls == [] then map[]
    else AsMap(calls[..|calls| - 1])[calls[|calls| - 1].name := |calls| - 1]
  }

  /** The payload pointer of hs_process: NULL, or a buffer into which these bytes were read. */
  datatype Pointer = Null | At(buffer: seq<byte>)

  /** What lies behind a buffer, byte by byte. */
  type Memory = nat -> byte

  function ByteAt(buffer: seq<byte>, beyond: Memory, i: nat): byte {
    if i < |buffer| then buffer[i] else beyond(i - |buffer|)
  }

  /** strcmp(name, buffer) == 0: the name and its terminator stand at the start of the buffer, or run on
      behind it. */
  predicate Spells(buffer: seq<byte>, beyond: Memory, name: Name) {
    forall i :: 0 <= i <= |name| ==> ByteAt(buffer, beyond, i) == if i < |name| then name[i] else 0
  }

  lemma Terminates(buffer: seq<byte>, beyond: Memory, name: Name)
    requires Spells(buffer, beyond, name)
    ensures ByteAt(buffer, beyond, |name|) == 0
    ensures forall i :: 0 <= i < |name| ==> ByteAt(buffer, beyond, i) == name[i] != 0
  {
    assert forall i :: 0 <= i < |name| ==> name[i] in name;
  }

  /** No two names stand at one place. */
  lemma SpellsOne(buffer: seq<byte>, beyond: Memory, x: Name, y: Name)
    requires Spells(buffer, beyond, x) && Spells(buffer, beyond, y)
    ensures x == y
  {
    Terminates(buffer, beyond, x);
    Terminates(buffer, beyond, y);
    assert |x| == |y|;
  }

  /** The scan of lines 58-67 over the list, newest first: the number of the registration it stops at. */
  function FirstMatch(list: seq<Registration>, buffer: seq<byte>, beyond: Memory): Option<nat> {
    if list == [] then None
    else if Spells(buffer, beyond, list[0].name) then Some(|list| - 1)
    else FirstMatch(list[1..], buffer, beyond)
  }

  /** What the map says about the string at a place in memory. */
  predicate Latest(calls: seq<Registration>, buffer: seq<byte>, beyond: Memory, found: Option<nat>) {
    match found
    case None => forall i :: 0 <= i < |calls| ==> !Spells(buffer, beyond, calls[i].name)
    case Some(i) => i < |calls| && Spells(buffer, beyond, calls[i].name) && AsMap(calls)[calls[i].name] == i
  }

  /** Scanning the list finds the latest registration of the name that stands in memory, and nothing
      exactly when no registered name does. */
  lemma {:induction false} ScanRefinesMap(calls: seq<Registration>, buffer: seq<byte>, beyond: Memory)
    ensures Latest(calls, buffer, beyond, FirstMatch(Reversed(calls), buffer, beyond))
    ensures |Reversed(calls)| == |calls|
  {
    if calls != [] {
      var past, last := calls[..|calls| - 1], calls[|calls| - 1];
      ScanRefinesMap(past, buffer, beyond);
      ReversedSnoc(past, last);
      assert calls == past + [last];
      assert ([last] + Reversed(past))[1..] == Reversed(past);
    }
  }

  lemma {:induction false} ReversedSnoc(s: seq<Registration>, x: Registration)
    ensures Reversed(s + [x]) == [x] + Reversed(s)
  {
    if s == [] {
      assert [] + [x] == [x];
    } else {
      ReversedSnoc(s[1..], x);
      assert (s + [x])[1..] == s[1..] + [x];
    }
  }

  /** The list behind the n-th registration. */
  lemma ReversedTake(calls: seq<Registration>, n: nat)
    requires 0 < n <= |calls|
    ensures Reversed(calls[..n]) == [calls[n - 1]] + Reversed(calls[..n - 1])
  {
    ReversedSnoc(calls[..n - 1], calls[n - 1]);
    assert calls[..n] == calls[..n - 1] + [calls[n - 1]];
  }

  lemma FirstMatchStep(first: Registration, others: seq<Registration>, buffer: seq<byte>, beyond: Memory)
    ensures FirstMatch([first] + others, buffer, beyond) ==
            if Spells(buffer, beyond, first.name) then Some(|others|) else FirstMatch(others, buffer, beyond)
  {
    assert ([first] + others)[1..] == others;
  }

  /** A received subaddress has no terminator of its own: its lookup is the map's, whatever has been
      registered, exactly when the byte behind the buffer happens to be 0. */
  lemma LookupExact(name: Name, beyond: Memory)
    ensures (forall calls: seq<Registration> ::
               FirstMatch(Reversed(calls), name, beyond) ==
               if name in AsMap(calls) then Some(AsMap(calls)[name]) else None)
            <==> beyond(0) == 0
  {
    if beyond(0) == 0 {
      assert Spells(name, beyond, name);
      forall calls: seq<Registration>
        ensures FirstMatch(Reversed(calls), name, beyond) ==
                if name in AsMap(calls) then Some(AsMap(calls)[name]) else None
      {
        TerminatedLookup(calls, name, beyond);
      }
    } else {
      var calls := [Registration(name, Callbacks(0, false))];
      assert !Spells(name, beyond, name) by {
        assert ByteAt(name, beyond, |name|) == beyond(0);
      }
      ScanRefinesMap(calls, name, beyond);
      assert calls[0].name in AsMap(calls);
    }
  }

  lemma TerminatedLookup(calls: seq<Registration>, name: Name, beyond: Memory)
    requires Spells(name, beyond, name)
    ensures FirstMatch(Reversed(calls), name, beyond) == if name in AsMap(calls) then Some(AsMap(calls)[name]) else None
  {
    ScanRefinesMap(calls, name, beyond);
    var found := FirstMatch(Reversed(calls), name, beyond);
    if found.Some? {
      SpellsOne(name, beyond, name, calls[found.value].name);
    }
  }

  /** hs_subaddress_data_t. `behind` is what the list holds from this node on. */
  class Node {
    const data: Registration
    const next: Node?
    ghost const behind: seq<Registration>

    constructor (data: Registration, next: Node?)
      ensures this.data == data && this.next == next && behind == [data] + Contents(next)
    {
      this.data := data;
      this.next := next;
      this.behind := [data] + Contents(next);
    }

    ghost predicate Valid()
      decreases |behind|
    {
      behind == [data] + Contents(next) && (next != null ==> |next.behind| < |behind| && next.Valid())
    }
  }

  ghost function Contents(node: Node?): seq<Registration> {
    if node == null then [] else node.behind
  }

  /** hs_server_t: the list of registrations and the subaddress_data field, null before the first one. */
  class HsServer {
    var head: Node?
    var subaddressData: Node?
    ghost var calls: seq<Registration>

    ghost predicate Valid()
      reads this
    {
      && (head != null ==> head.Valid())
      && Contents(head) == Reversed(calls)
      && subaddressData == head
    }

    /** hs_server_init: an empty list. */
    constructor ()
      ensures Valid() && calls == []
    {
      head, subaddressData, calls := null, null, [];
    }

    /** hs_server_register_subaddress. */
    method RegisterSubaddress(name: Name, callbacks: Callbacks)
      requires Valid()
      modifies this
      ensures Valid() && calls == old(calls) + [Registration(name, callbacks)]
    {
      ReversedSnoc(calls, Registration(name, callbacks));
      subaddressData := new Node(Registration(name, callbacks), head);
      head := subaddressData;
      calls := calls + [Registration(name, callbacks)];
    }

    lemma Newest()
      requires Valid()
      ensures calls == [] <==> head == null
      ensures calls != [] ==> head.data == calls[|calls| - 1]
    {
      if calls != [] {
        ReversedSnoc(calls[..|calls| - 1], calls[|calls| - 1]);
        assert calls == calls[..|calls| - 1] + [calls[|calls| - 1]];
        assert Contents(head)[0] == calls[|calls| - 1];
      }
    }

    /** server_subaddress_link as written: 0 or 1, and nothing is linked, because the match is assigned to
        a by-value parameter. None stands for strcmp following a NULL pointer. */
    method SubaddressLink(subaddress: Pointer, beyond: Memory) returns (matchFound: Option<int>)
      requires Valid()
      ensures matchFound ==
              if subaddress.Null? then (if calls == [] then Some(0) else None)
              else if exists i :: 0 <= i < |calls| && Spells(subaddress.buffer, beyond, calls[i].name) then Some(1)
              else Some(0)
    {
      Newest();
      if subaddress.Null? {
        return if head == null then Some(0) else None;
      }
      var found := Find(subaddress.buffer, beyond);
      matchFound := Some(if found != null then 1 else 0);
    }

    /** The scan, handing out the node it found: that of the latest registration of the name that stands in
        memory. */
    method Find(buffer: seq<byte>, beyond: Memory) returns (found: Node?)
      requires Valid()
      ensures found == null ==> Latest(calls, buffer, beyond, None)
      ensures found != null ==>
                && 0 < |found.behind| <= |calls| && found.data == calls[|found.behind| - 1]
                && found.behind == Reversed(calls[..|found.behind|])
                && Latest(calls, buffer, beyond, Some(|found.behind| - 1))
    {
      ScanRefinesMap(calls, buffer, beyond);
      assert calls[..|calls|] == calls;
      var sd := head;
      while sd != null
        invariant (sd != null ==> sd.Valid()) && |Contents(sd)| <= |calls|
        invariant Contents(sd) == Reversed(calls[..|Contents(sd)|])
        invariant FirstMatch(Contents(sd), buffer, beyond) == FirstMatch(Contents(head), buffer, beyond)
        decreases |Contents(sd)|
      {
        ReversedTake(calls, |sd.behind|);
        FirstMatchStep(sd.data, Contents(sd.next), buffer, beyond);
        if Spells(buffer, beyond, sd.data.name) {
          return sd;
        }
        sd := sd.next;
      }
      found := null;
    }

    /** The callbacks that a Data message reaches as written (line 251): those of the last registration,
        whatever subaddress the client asked for. None stands for following the unset field. */
    method SyncHandler() returns (callbacks: Option<Callbacks>)
      requires Valid()
      ensures callbacks == if calls == [] then None else Some(calls[|calls| - 1].callbacks)
    {
      Newest();
      callbacks := if subaddressData == null then None else Some(subaddressData.data.callbacks);
    }
  }

  /** The registration that a Data message reaches is the one the scan finds for the client's subaddress
      exactly when the name registered last is the one that stands there. */
  lemma HandlerExact(calls: seq<Registration>, buffer: seq<byte>, beyond: Memory)
    requires calls != []
    ensures FirstMatch(Reversed(calls), buffer, beyond) == Some(|calls| - 1) <==>
            Spells(buffer, beyond, calls[|calls| - 1].name)
  {
    ScanRefinesMap(calls, buffer, beyond);
    var found := FirstMatch(Reversed(calls), buffer, beyond);
    if Spells(buffer, beyond, calls[|calls| - 1].name) && found.Some? {
      SpellsOne(buffer, beyond, calls[found.value].name, calls[|calls| - 1].name);
    }
  }
}
