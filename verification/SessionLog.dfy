/** Histories of the session table: the atomic allocator and the SessionIDs that hs_connect stores. Who owns
    a slot, how many are taken, what SessionID a session has, and when two share one. */
module SessionLog {
  import opened ByteOrder
  import opened Framing
  import opened Sessions

  /** session_new, session_free, and the assignment of a received SessionID (src/client.c:118). */
  datatype Call = NewCall | FreeCall(handle: int) | StoreCall(slot: nat, id: u16)

  /** A call by some thread, with the value it returned (0 for an assignment). */
  datatype Event = Event(thread: nat, call: Call, result: int)

  function Store(t: Table, h: nat, id: u16): (r: Outcome)
    requires ValidTable(t)
    ensures ValidTable(r.table)
  {
    if h < MAX_SESSIONS then Outcome(t.(ids := t.ids[h := id]), 0) else Outcome(t, -1)
  }

  function Apply(t: Table, call: Call): (r: Outcome)
    requires ValidTable(t)
    ensures ValidTable(r.table)
  {
    match call
    case NewCall => Allocate(t)
    case FreeCall(h) => Release(t, h)
    case StoreCall(h, id) => Store(t, h, id)
  }

  function Replay(log: seq<Event>): (t: Table)
    ensures ValidTable(t)
  {
    if log == [] then EmptyTable() else Apply(Replay(log[..|log| - 1]), log[|log| - 1].call).table
  }

  /** Every recorded result is the one the atomic allocator gives at that point of the history. */
  predicate Faithful(log: seq<Event>) {
    log == [] ||
    var past, e := log[..|log| - 1], log[|log| - 1];
    Faithful(past) && e.result == Apply(Replay(past), e.call).result
  }

  predicate IsGrant(e: Event, h: nat) {
    e.call == NewCall && e.result == h
  }

  predicate IsRelease(e: Event, h: nat) {
    e.call == FreeCall(h) && e.result == 0
  }

  lemma {:induction false} FaithfulPrefix(log: seq<Event>, n: nat)
    requires Faithful(log) && n <= |log|
    ensures Faithful(log[..n])
    decreases |log|
  {
    if n < |log| {
      var past := log[..|log| - 1];
      FaithfulPrefix(past, n);
      assert past[..n] == log[..n];
    } else {
      assert log[..n] == log;
    }
  }

  lemma EventResult(log: seq<Event>, k: nat)
    requires Faithful(log) && k < |log|
    ensures Faithful(log[..k])
    ensures log[k].result == Apply(Replay(log[..k]), log[k].call).result
    ensures Replay(log[..k + 1]) == Apply(Replay(log[..k]), log[k].call).table
  {
    FaithfulPrefix(log, k);
    FaithfulPrefix(log, k + 1);
    assert log[..k + 1][..k] == log[..k];
  }

  lemma AppendEvent(past: seq<Event>, e: Event)
    requires Faithful(past) && e.result == Apply(Replay(past), e.call).result
    ensures Faithful(past + [e]) && Replay(past + [e]) == Apply(Replay(past), e.call).table
  {
    assert (past + [e])[..|past|] == past;
  }

  lemma ApplyKeepsTaken(t: Table, e: Event, h: nat)
    requires ValidTable(t) && h < MAX_SESSIONS && t.taken[h] && !IsRelease(e, h) && e.result == Apply(t, e.call).result
    ensures Apply(t, e.call).table.taken[h]
  {
  }

  lemma GrantTakes(t: Table, e: Event, h: nat)
    requires ValidTable(t) && h < MAX_SESSIONS && IsGrant(e, h) && e.result == Apply(t, e.call).result
    ensures !t.taken[h] && Apply(t, e.call).table.taken[h]
  {
  }

  /** A slot that was granted stays taken until it is released. */
  lemma {:induction false} StaysTaken(log: seq<Event>, i: nat, j: nat, h: nat)
    requires Faithful(log) && i < j <= |log| && h < MAX_SESSIONS && IsGrant(log[i], h)
    requires forall k :: i < k < j ==> !IsRelease(log[k], h)
    ensures Replay(log[..j]).taken[h]
    decreases j
  {
    var t, e := Replay(log[..j - 1]), log[j - 1];
    assert Replay(log[..j]) == Apply(t, e.call).table && e.result == Apply(t, e.call).result by {
      EventResult(log, j - 1);
    }
    if i == j - 1 {
      GrantTakes(t, e, h);
    } else {
      StaysTaken(log, i, j - 1, h);
      ApplyKeepsTaken(t, e, h);
    }
  }

  /** No handle has two owners at once: between two grants of a slot there is a release of it. */
  lemma NoDoubleGrant(log: seq<Event>, i: nat, j: nat, h: nat)
    requires Faithful(log) && i < j < |log| && IsGrant(log[i], h) && IsGrant(log[j], h)
    ensures exists k :: i < k < j && IsRelease(log[k], h)
  {
    EventResult(log, j);
    GrantTakes(Replay(log[..j]), log[j], h);
    if forall k :: i < k < j ==> !IsRelease(log[k], h) {
      StaysTaken(log, i, j, h);
    }
  }

  // ----- conservation -----

  function Trues(taken: seq<bool>): (n: nat)
    ensures n <= |taken|
  {
    if taken == [] then 0 else (if taken[0] then 1 else 0) + Trues(taken[1..])
  }

  lemma {:induction false} TruesUpdate(taken: seq<bool>, i: nat, b: bool)
    requires i < |taken|
    ensures Trues(taken[i := b]) == Trues(taken) - (if taken[i] then 1 else 0) + (if b then 1 else 0)
  {
    var updated := taken[i := b];
    if i > 0 {
      TruesUpdate(taken[1..], i - 1, b);
      assert updated[1..] == taken[1..][i - 1 := b];
    } else {
      assert updated[1..] == taken[1..];
    }
  }

  lemma {:induction false} TruesOfNone(n: nat)
    ensures Trues(seq(n, _ => false)) == 0
  {
    if n > 0 {
      TruesOfNone(n - 1);
      assert seq(n, _ => false)[1..] == seq(n - 1, _ => false);
    }
  }

  /** Successful session_new calls. */
  function Grants(log: seq<Event>): nat {
    if log == [] then 0
    else Grants(log[..|log| - 1]) + (var e := log[|log| - 1]; if e.call == NewCall && e.result >= 0 then 1 else 0)
  }

  /** Successful session_free calls. */
  function Releases(log: seq<Event>): nat {
    if log == [] then 0
    else Releases(log[..|log| - 1]) + (var e := log[|log| - 1]; if e.call.FreeCall? && e.result == 0 then 1 else 0)
  }

  /** Taken slots are the successful allocations that have not been released. */
  lemma {:induction false} Conservation(log: seq<Event>)
    requires Faithful(log)
    ensures Trues(Replay(log).taken) == Grants(log) - Releases(log)
    ensures 0 <= Grants(log) - Releases(log) <= MAX_SESSIONS
  {
    if log == [] {
      TruesOfNone(MAX_SESSIONS);
    } else {
      var past, e := log[..|log| - 1], log[|log| - 1];
      Conservation(past);
      if e.result >= 0 {
        match e.call
        case NewCall => TruesUpdate(Replay(past).taken, e.result, true);
        case FreeCall(h) => TruesUpdate(Replay(past).taken, h, false);
        case StoreCall(_, _) =>
      }
    }
  }

  // ----- SessionID -----

  /** How many allocations had succeeded before the latest one that handed out slot h. */
  function Ordinal(log: seq<Event>, h: nat): nat {
    if log == [] then 0
    else
      var past := log[..|log| - 1];
      if IsGrant(log[|log| - 1], h) then Grants(past) else Ordinal(past, h)
  }

  lemma {:induction false} CounterIsGrants(log: seq<Event>)
    requires Faithful(log)
    ensures Replay(log).next == Grants(log) % TWO_16
  {
    if log != [] {
      var past := log[..|log| - 1];
      CounterIsGrants(past);
      NextCounter(Grants(past));
    }
  }

  /** The SessionID stored last for slot h since it was handed out, if any. */
  function Stored(log: seq<Event>, h: nat): Option<u16> {
    if log == [] then None
    else
      var past, e := log[..|log| - 1], log[|log| - 1];
      if IsGrant(e, h) then None
      else if e.call.StoreCall? && e.call.slot == h then Some(e.call.id)
      else Stored(past, h)
  }

  /** The SessionID of a taken slot is the one stored last since the slot was handed out, or, if there is
      none, the slot's ordinal cut to 16 bits. */
  lemma {:induction false} SessionIdOf(log: seq<Event>, h: nat)
    requires Faithful(log) && h < MAX_SESSIONS && Replay(log).taken[h]
    ensures Ordinal(log, h) < Grants(log)
    ensures Replay(log).ids[h] == match Stored(log, h) case None => Ordinal(log, h) % TWO_16 case Some(id) => id
  {
    if log != [] {
      var past := log[..|log| - 1];
      CounterIsGrants(past);
      if !IsGrant(log[|log| - 1], h) {
        SessionIdOf(past, h);
      }
    }
  }

  lemma {:induction false} OrdinalsDiffer(log: seq<Event>, a: nat, b: nat)
    requires Faithful(log) && a < MAX_SESSIONS && b < MAX_SESSIONS && a != b
    requires Replay(log).taken[a] && Replay(log).taken[b]
    ensures Ordinal(log, a) != Ordinal(log, b)
  {
    if log != [] {
      var past, e := log[..|log| - 1], log[|log| - 1];
      if IsGrant(e, a) {
        SessionIdOf(past, b);
      } else if IsGrant(e, b) {
        SessionIdOf(past, a);
      } else {
        OrdinalsDiffer(past, a, b);
      }
    }
  }

  /** Two live sessions for which nothing was stored - those of a server - share a SessionID exactly when
      their allocations lie a non-zero multiple of 65536 apart. */
  lemma SharedSessionId(log: seq<Event>, a: nat, b: nat)
    requires Faithful(log) && a < MAX_SESSIONS && b < MAX_SESSIONS && a != b
    requires Replay(log).taken[a] && Replay(log).taken[b]
    requires Stored(log, a) == None && Stored(log, b) == None
    ensures Replay(log).ids[a] == Replay(log).ids[b] <==>
            (Ordinal(log, a) - Ordinal(log, b)) % TWO_16 == 0
    ensures Ordinal(log, a) != Ordinal(log, b)
  {
    SessionIdOf(log, a);
    SessionIdOf(log, b);
    OrdinalsDiffer(log, a, b);
    Congruent16(Ordinal(log, a), Ordinal(log, b));
  }

  /** Two sessions that both got theirs from a server - those of a client - share one exactly when the
      servers gave out the same. */
  lemma SharedStoredId(log: seq<Event>, a: nat, b: nat)
    requires Faithful(log) && a < MAX_SESSIONS && b < MAX_SESSIONS
    requires Replay(log).taken[a] && Replay(log).taken[b]
    requires Stored(log, a).Some? && Stored(log, b).Some?
    ensures Replay(log).ids[a] == Replay(log).ids[b] <==> Stored(log, a) == Stored(log, b)
  {
    SessionIdOf(log, a);
    SessionIdOf(log, b);
  }

  lemma Congruent16(x: nat, y: nat)
    ensures x % TWO_16 == y % TWO_16 <==> (x - y) % TWO_16 == 0
  {
    var a, b := x / TWO_16, y / TWO_16;
    assert x - y == (a - b) * TWO_16 + (x % TWO_16 - y % TWO_16);
  }

  /** One session that stays, and n short ones after it. */
  function Churn(n: nat): seq<Event> {
    if n == 0 then [Event(0, NewCall, 0)]
    else Churn(n - 1) + [Event(0, NewCall, 1), Event(0, FreeCall(1), 0)]
  }

  /** Slot 0 is held, and the next allocation takes slot 1. */
  predicate OnlyFirst(log: seq<Event>, next: u16) {
    Faithful(log) && var t := Replay(log); t.taken[0] && !t.taken[1] && t.ids[0] == 0 && t.next == next
  }

  lemma GrantSecond(log: seq<Event>, next: u16)
    requires OnlyFirst(log, next)
    ensures var after := log + [Event(0, NewCall, 1)];
            && Faithful(after)
            && var t := Replay(after);
               t.taken[0] && t.taken[1] && t.ids[0] == 0 && t.ids[1] == next && t.next == (next + 1) % TWO_16
  {
    LowestFreeUnique(Replay(log).taken, 1);
    AppendEvent(log, Event(0, NewCall, 1));
  }

  lemma GrantAndRelease(log: seq<Event>, next: u16)
    requires OnlyFirst(log, next)
    ensures OnlyFirst(log + [Event(0, NewCall, 1)] + [Event(0, FreeCall(1), 0)], (next + 1) % TWO_16)
  {
    GrantSecond(log, next);
    AppendEvent(log + [Event(0, NewCall, 1)], Event(0, FreeCall(1), 0));
  }

  lemma ChurnStart()
    ensures OnlyFirst(Churn(0), 1)
  {
    LowestFreeUnique(EmptyTable().taken, 0);
    AppendEvent([], Event(0, NewCall, 0));
    assert Churn(0) == [] + [Event(0, NewCall, 0)];
  }

  lemma NextCounter(n: nat)
    ensures (n % TWO_16 + 1) % TWO_16 == (n + 1) % TWO_16
  {
  }

  lemma {:induction false} ChurnState(n: nat)
    ensures OnlyFirst(Churn(n), (n + 1) % TWO_16)
  {
    if n == 0 {
      ChurnStart();
    } else {
      ChurnState(n - 1);
      GrantAndRelease(Churn(n - 1), n % TWO_16);
      NextCounter(n);
      assert Churn(n) == Churn(n - 1) + [Event(0, NewCall, 1)] + [Event(0, FreeCall(1), 0)];
    }
  }

  /** The bound is met: after 65535 short sessions the next one collides with the first. */
  lemma SessionIdsCanCollide()
    ensures exists log: seq<Event> ::
              Faithful(log) && Replay(log).taken[0] && Replay(log).taken[1] && Replay(log).ids[0] == Replay(log).ids[1]
  {
    ChurnState(65535);
    GrantSecond(Churn(65535), 0);
    var log := Churn(65535) + [Event(0, NewCall, 1)];
    assert Faithful(log) && Replay(log).taken[0] && Replay(log).taken[1] && Replay(log).ids[0] == Replay(log).ids[1];
  }

  /** The history of two hs_connect calls, to servers that both gave out slot 0. */
  function TwoConnects(): seq<Event> {
    [Event(0, NewCall, 0), Event(0, StoreCall(0, 0), 0), Event(0, NewCall, 1), Event(0, StoreCall(1, 0), 0)]
  }

  lemma Appended(log: seq<Event>, e: Event, t: Table)
    requires Faithful(log) && Replay(log) == t && e.result == Apply(t, e.call).result
    ensures Faithful(log + [e]) && Replay(log + [e]) == Apply(t, e.call).table
  {
    AppendEvent(log, e);
  }

  /** No wrap is needed for a shared SessionID on a client: ordinals 0 and 1, and the same id. */
  lemma ConnectedIdsCollide()
    ensures var log := TwoConnects();
            && Faithful(log) && Replay(log).taken[0] && Replay(log).taken[1]
            && Replay(log).ids[0] == Replay(log).ids[1]
            && Ordinal(log, 0) == 0 && Ordinal(log, 1) == 1
  {
    var e := TwoConnects();
    ChurnStart();
    assert Churn(0) == e[..1];
    assert e[..2] == e[..1] + [e[1]];
    Appended(e[..1], e[1], Replay(e[..1]));
    assert OnlyFirst(e[..2], 1);
    GrantSecond(e[..2], 1);
    assert e[..3] == e[..2] + [e[2]];
    Appended(e[..3], e[3], Replay(e[..3]));
    assert e == e[..3] + [e[3]];
    ConnectOrdinals();
  }

  lemma ConnectOrdinals()
    ensures Ordinal(TwoConnects(), 0) == 0 && Ordinal(TwoConnects(), 1) == 1
  {
    var e := TwoConnects();
    assert e[..1][..0] == [] && e[..2][..1] == e[..1] && e[..3][..2] == e[..2];
    assert Grants(e[..1]) == 1 && Ordinal(e[..1], 0) == 0;
    assert Grants(e[..2]) == 1 && Ordinal(e[..2], 0) == 0;
    assert Ordinal(e[..3], 0) == 0 && Ordinal(e[..3], 1) == 1;
  }
}
