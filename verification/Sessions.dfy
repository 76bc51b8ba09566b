/** The session table of src/session.c: 256 slots and a wrapping 16-bit counter. */
module Sessions {
  import opened ByteOrder
  import opened Transport

  const MAX_SESSIONS := 256

  /** session_t. The descriptors are null where the C code stores -1. */
  datatype Session = Session(
    taken: bool, socketSync: Socket?, socketAsync: Socket?, sessionId: u16,
    messageId: u32, clientSizeMax: u64, serverSizeMax: u64)

  const FIRST_MESSAGE_ID: u32 := 0xFFFF_FF00
  const DEFAULT_SIZE_MAX: u64 := 256

  function NewSession(id: u16): Session {
    Session(true, null, null, id, FIRST_MESSAGE_ID, DEFAULT_SIZE_MAX, DEFAULT_SIZE_MAX)
  }

  // ----- the allocator as an atomic object -----

  /** What allocation depends on: which slots are taken, their SessionIDs, and the counter. */
  datatype Table = Table(taken: seq<bool>, ids: seq<u16>, next: u16)

  predicate ValidTable(t: Table) {
    |t.taken| == |t.ids| == MAX_SESSIONS
  }

  function EmptyTable(): (t: Table)
    ensures ValidTable(t)
  {
    Table(seq(MAX_SESSIONS, _ => false), seq(MAX_SESSIONS, _ => 0), 0)
  }

  function LowestFree(taken: seq<bool>): (i: nat)
    ensures i <= |taken|
    ensures forall j :: 0 <= j < i ==> taken[j]
    ensures i < |taken| ==> !taken[i]
  {
    if taken == [] || !taken[0] then 0 else 1 + LowestFree(taken[1..])
  }

  /** Only one position has all slots below it taken and is itself free (or past the end). */
  lemma LowestFreeUnique(taken: seq<bool>, i: nat)
    requires i <= |taken| && (forall j :: 0 <= j < i ==> taken[j]) && (i < |taken| ==> !taken[i])
    ensures LowestFree(taken) == i
  {
  }

  datatype Outcome = Outcome(table: Table, result: int)

  function Allocate(t: Table): (r: Outcome)
    requires ValidTable(t)
    ensures ValidTable(r.table)
  {
    var i := LowestFree(t.taken);
    if i == MAX_SESSIONS then Outcome(t, -1)
    else Outcome(Table(t.taken[i := true], t.ids[i := t.next], (t.next + 1) % TWO_16), i)
  }

  function Release(t: Table, h: int): (r: Outcome)
    requires ValidTable(t)
    ensures ValidTable(r.table)
  {
    if 0 <= h < MAX_SESSIONS && t.taken[h] then Outcome(t.(taken := t.taken[h := false]), 0) else Outcome(t, -1)
  }

  function TableOf(slots: seq<Session>, next: u16): (t: Table)
    ensures |t.taken| == |t.ids| == |slots|
  {
    Table(seq(|slots|, i requires 0 <= i < |slots| => slots[i].taken),
          seq(|slots|, i requires 0 <= i < |slots| => slots[i].sessionId), next)
  }

  lemma TableOfUpdate(slots: seq<Session>, i: nat, s: Session, next: u16, next': u16)
    requires i < |slots|
    ensures TableOf(slots[i := s], next') ==
            Table(TableOf(slots, next).taken[i := s.taken], TableOf(slots, next).ids[i := s.sessionId], next')
  {
    assert TableOf(slots[i := s], next').taken == TableOf(slots, next).taken[i := s.taken];
    assert TableOf(slots[i := s], next').ids == TableOf(slots, next).ids[i := s.sessionId];
  }

  class SessionTable {
    const slots: array<Session>
    var next: u16

    constructor ()
      ensures Valid() && fresh(slots)
      ensures View() == EmptyTable()
    {
      slots := new Session[MAX_SESSIONS](_ => Session(false, null, null, 0, 0, 0, 0));
      next := 0;
      new;
      assert View().taken == EmptyTable().taken && View().ids == EmptyTable().ids;
    }

    predicate Valid() {
      slots.Length == MAX_SESSIONS
    }

    function View(): (t: Table)
      reads this, slots
      requires Valid()
      ensures ValidTable(t)
    {
      TableOf(slots[..], next)
    }

    /** session_new. */
    method SessionNew() returns (handle: int)
      requires Valid()
      modifies this`next, slots
      ensures Outcome(View(), handle) == Allocate(old(View()))
      ensures handle == -1 ==> slots[..] == old(slots[..])
      ensures handle >= 0 ==> slots[..] == old(slots[..])[handle := NewSession(old(next))]
      ensures handle == -1 <==> forall j :: 0 <= j < 256 ==> old(slots[j]).taken
      ensures handle != -1 ==>
                && 0 <= handle < 256 && !old(slots[handle]).taken
                && (forall j :: 0 <= j < handle ==> old(slots[j]).taken)
                && slots[handle] == Session(true, null, null, old(next), 0xFFFF_FF00, 256, 256)
                && next == (old(next) + 1) % 0x1_0000
    {
      var available := false;
      var i := 0;
      while i < MAX_SESSIONS && !available
        invariant 0 <= i <= MAX_SESSIONS
        invariant forall j :: 0 <= j < i ==> old(slots[j]).taken
        invariant !available ==> slots[..] == old(slots[..]) && next == old(next)
        invariant available ==> i < MAX_SESSIONS && !old(slots[i]).taken
        invariant available ==> slots[..] == old(slots[..])[i := NewSession(old(next))]
        invariant available ==> next == (old(next) + 1) % TWO_16
        decreases MAX_SESSIONS - i, !available
      {
        if !slots[i].taken {
          var id := next;
          next := (next + 1) % TWO_16;
          slots[i] := Session(true, null, null, id, FIRST_MESSAGE_ID, DEFAULT_SIZE_MAX, DEFAULT_SIZE_MAX);
          available := true;
        } else {
          i := i + 1;
        }
      }
      LowestFreeUnique(old(View()).taken, i);
      if !available {
        return -1;
      }
      TableOfUpdate(old(slots[..]), i, slots[i], old(next), next);
      handle := i;
    }

    /** session_free. */
    method SessionFree(i: int) returns (status: int)
      requires Valid()
      modifies slots
      ensures Outcome(View(), status) == Release(old(View()), i)
      ensures status == 0 ==> 0 <= i < MAX_SESSIONS && slots[..] == old(slots[..])[i := old(slots[i]).(taken := false)]
      ensures status != 0 ==> slots[..] == old(slots[..])
      ensures status == if 0 <= i < 256 && old(slots[i]).taken then 0 else -1
    {
      if i >= MAX_SESSIONS || i < 0 {
        return -1;
      }
      if !slots[i].taken {
        return -1;
      }
      slots[i] := slots[i].(taken := false);
      TableOfUpdate(old(slots[..]), i, slots[i], next, next);
      assert View().ids == old(View()).ids;
      status := 0;
    }
  }
}
