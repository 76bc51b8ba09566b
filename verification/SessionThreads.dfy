/** session_new and session_free run by any number of threads: taking the mutex, testing a slot,
    writing the slot, stamping it, and releasing the mutex are separate steps that interleave freely, and
    so is the assignment of a SessionID by hs_connect, which takes no mutex. */
module SessionThreads {
  import opened ByteOrder
  import opened Sessions
  import opened SessionLog
  import opened Framing

  datatype Pc =
    | Idle
    | NewEntry                              // inside session_new, waiting for the mutex
    | NewScan(i: nat)                       // about to look at slot i
    | NewClaim(i: nat)                      // found slot i free, about to set its flag
    | NewStamp(i: nat)                      // flag set, about to write SessionID and counter
    | FreeEntry(h: int)                     // inside session_free, waiting for the mutex
    | FreeCheck(h: int)                     // about to check the handle
    | FreeWrite(h: int)                     // about to clear the flag
    | Unlocking(call: Call, result: int)    // about to release the mutex
    | Returned(call: Call, result: int)     // the caller has the result

  datatype Move = BeginNew | BeginFree(h: int) | Advance | Assign(slot: nat, id: u16)

  /** `log` and `begun` are history: the call that took effect at each point, and how many calls each
      thread has made. */
  datatype State = State(table: Table, mutex: Option<nat>, pcs: seq<Pc>, log: seq<Event>, begun: seq<nat>)

  function Init(threads: nat): State {
    State(EmptyTable(), None, seq(threads, _ => Idle), [], seq(threads, _ => 0))
  }

  function Goto(s: State, t: nat, pc: Pc): State
    requires t < |s.pcs|
  {
    s.(pcs := s.pcs[t := pc])
  }

  function Begin(s: State, t: nat, pc: Pc): State
    requires t < |s.pcs| == |s.begun|
  {
    Goto(s, t, pc).(begun := s.begun[t := s.begun[t] + 1])
  }

  /** The call takes effect here. */
  function Decide(s: State, t: nat, call: Call, result: int): State
    requires t < |s.pcs|
  {
    Goto(s, t, Unlocking(call, result)).(log := s.log + [Event(t, call, result)])
  }

  /** session[h].SessionID = id, by a thread that is in neither function. */
  function Write(s: State, t: nat, h: nat, id: u16): State
    requires Shaped(s) && t < |s.pcs|
  {
    if h >= MAX_SESSIONS then s
    else
      s.(table := Store(s.table, h, id).table, log := s.log + [Event(t, StoreCall(h, id), 0)],
         begun := s.begun[t := s.begun[t] + 1])
  }

  function Lock(s: State, t: nat, pc: Pc): State
    requires t < |s.pcs|
  {
    if s.mutex == None then Goto(s, t, pc).(mutex := Some(t)) else s
  }

  predicate Shaped(s: State) {
    ValidTable(s.table) && |s.begun| == |s.pcs|
  }

  /** One step of thread t inside a call. */
  function Proceed(s: State, t: nat): State
    requires Shaped(s) && t < |s.pcs|
  {
    match s.pcs[t]
    case Idle => s
    case NewEntry => Lock(s, t, NewScan(0))
    case NewScan(i) =>
      if i >= MAX_SESSIONS then Decide(s, t, NewCall, -1)
      else if s.table.taken[i] then Goto(s, t, NewScan(i + 1))
      else Goto(s, t, NewClaim(i))
    case NewClaim(i) =>
      if i >= MAX_SESSIONS then s
      else Goto(s, t, NewStamp(i)).(table := s.table.(taken := s.table.taken[i := true]))
    case NewStamp(i) =>
      if i >= MAX_SESSIONS then s
      else
        var stamped := s.table.(ids := s.table.ids[i := s.table.next], next := (s.table.next + 1) % TWO_16);
        Decide(s, t, NewCall, i).(table := stamped)
    case FreeEntry(h) => Lock(s, t, FreeCheck(h))
    case FreeCheck(h) =>
      if h >= MAX_SESSIONS || h < 0 then Decide(s, t, FreeCall(h), -1)
      else if !s.table.taken[h] then Decide(s, t, FreeCall(h), -1)
      else Goto(s, t, FreeWrite(h))
    case FreeWrite(h) =>
      if h >= MAX_SESSIONS || h < 0 then s
      else Decide(s, t, FreeCall(h), 0).(table := s.table.(taken := s.table.taken[h := false]))
    case Unlocking(call, result) => Goto(s, t, Returned(call, result)).(mutex := None)
    case Returned(_, _) => Goto(s, t, Idle)
  }

  /** A step of the scheduler; moves that do not apply change nothing. */
  function Do(s: State, t: nat, move: Move): (s': State)
    requires Shaped(s)
    ensures Shaped(s') && |s'.pcs| == |s.pcs|
  {
    if t >= |s.pcs| then s
    else match move
      case BeginNew => if s.pcs[t] == Idle then Begin(s, t, NewEntry) else s
      case BeginFree(h) => if s.pcs[t] == Idle then Begin(s, t, FreeEntry(h)) else s
      case Advance => Proceed(s, t)
      case Assign(h, id) => if s.pcs[t] == Idle then Write(s, t, h, id) else s
  }

  function Execute(threads: nat, schedule: seq<(nat, Move)>): (s: State)
    ensures Shaped(s) && |s.pcs| == threads
  {
    if schedule == [] then Init(threads)
    else
      var (t, move) := schedule[|schedule| - 1];
      Do(Execute(threads, schedule[..|schedule| - 1]), t, move)
  }

  // ----- the invariant -----

  predicate Holds(pc: Pc) {
    pc.NewScan? || pc.NewClaim? || pc.NewStamp? || pc.FreeCheck? || pc.FreeWrite? || pc.Unlocking?
  }

  /** The call has not taken effect yet. */
  predicate Undecided(pc: Pc) {
    !pc.Idle? && !pc.Unlocking? && !pc.Returned?
  }

  /** The table as the atomic allocator has it, plus what a half-done claim has already written. */
  function Concrete(model: Table, pc: Pc): Table
    requires ValidTable(model)
  {
    if pc.NewStamp? && pc.i < MAX_SESSIONS then model.(taken := model.taken[pc.i := true]) else model
  }

  predicate Progress(model: Table, pc: Pc)
    requires ValidTable(model)
  {
    match pc
    case NewScan(i) => i <= MAX_SESSIONS && forall j :: 0 <= j < i ==> model.taken[j]
    case NewClaim(i) => i < MAX_SESSIONS && LowestFree(model.taken) == i
    case NewStamp(i) => i < MAX_SESSIONS && LowestFree(model.taken) == i
    case FreeWrite(h) => 0 <= h < MAX_SESSIONS && model.taken[h]
    case _ => true
  }

  predicate MutexInv(s: State)
    requires Shaped(s)
  {
    forall t :: 0 <= t < |s.pcs| ==> (Holds(s.pcs[t]) <==> s.mutex == Some(t))
  }

  /** The table is the replayed history, except for the write of a claiming mutex holder. */
  predicate TableInv(s: State)
    requires Shaped(s)
  {
    && Faithful(s.log)
    && match s.mutex
       case None => s.table == Replay(s.log)
       case Some(t) =>
         t < |s.pcs| && s.table == Concrete(Replay(s.log), s.pcs[t]) && Progress(Replay(s.log), s.pcs[t])
  }

  function EventsOf(log: seq<Event>, t: nat): nat {
    if log == [] then 0
    else EventsOf(log[..|log| - 1], t) + (if log[|log| - 1].thread == t then 1 else 0)
  }

  function LastOf(log: seq<Event>, t: nat): Option<Event> {
    if log == [] then None
    else if log[|log| - 1].thread == t then Some(log[|log| - 1])
    else LastOf(log[..|log| - 1], t)
  }

  /** Thread t has one history entry for each call it made, made between the call and its return, and
      a decided call carries the value of that entry. */
  predicate ThreadInv(s: State, t: nat)
    requires Shaped(s) && t < |s.pcs|
  {
    var pc := s.pcs[t];
    && EventsOf(s.log, t) + (if Undecided(pc) then 1 else 0) == s.begun[t]
    && ((pc.Unlocking? || pc.Returned?) ==> LastOf(s.log, t) == Some(Event(t, pc.call, pc.result)))
  }

  predicate Inv(s: State) {
    Shaped(s) && MutexInv(s) && TableInv(s) && forall t :: 0 <= t < |s.pcs| ==> ThreadInv(s, t)
  }

  lemma AppendKeepsOthers(log: seq<Event>, e: Event, t: nat)
    ensures EventsOf(log + [e], t) == EventsOf(log, t) + (if e.thread == t then 1 else 0)
    ensures LastOf(log + [e], t) == if e.thread == t then Some(e) else LastOf(log, t)
  {
    assert (log + [e])[..|log|] == log;
  }

  lemma DoKeepsMutexInv(s: State, t: nat, move: Move)
    requires Inv(s)
    ensures MutexInv(Do(s, t, move))
  {
  }

  /** What a step of thread t can do to the history and to the threads. */
  ghost predicate Frame(s: State, s': State, t: nat)
    requires Shaped(s) && Shaped(s')
  {
    && |s'.pcs| == |s.pcs|
    && (forall u :: 0 <= u < |s.pcs| && u != t ==> s'.pcs[u] == s.pcs[u] && s'.begun[u] == s.begun[u])
    && (s'.log == s.log || exists e: Event :: e.thread == t && s'.log == s.log + [e])
  }

  lemma DoFrame(s: State, t: nat, move: Move)
    requires Shaped(s)
    ensures Frame(s, Do(s, t, move), t)
  {
    var s' := Do(s, t, move);
    if t < |s.pcs| && s'.log != s.log {
      assert s'.log == s.log + [s'.log[|s.log|]] && s'.log[|s.log|].thread == t;
    }
  }

  lemma FrameKeepsThreadInv(s: State, s': State, t: nat, u: nat)
    requires Shaped(s) && Shaped(s') && Frame(s, s', t) && u < |s.pcs| && u != t && ThreadInv(s, u)
    ensures ThreadInv(s', u)
  {
    if s'.log != s.log {
      var e: Event :| e.thread == t && s'.log == s.log + [e];
      AppendKeepsOthers(s.log, e, u);
    }
  }

  lemma OwnAdvanceKeepsThreadInv(s: State, t: nat)
    requires Shaped(s) && t < |s.pcs| && ThreadInv(s, t)
    ensures ThreadInv(Proceed(s, t), t)
  {
    var s' := Proceed(s, t);
    if s'.log != s.log {
      AppendKeepsOthers(s.log, s'.log[|s.log|], t);
    }
  }

  lemma OwnWriteKeepsThreadInv(s: State, t: nat, h: nat, id: u16)
    requires Shaped(s) && t < |s.pcs| && ThreadInv(s, t) && s.pcs[t] == Idle
    ensures ThreadInv(Write(s, t, h, id), t)
  {
    AppendKeepsOthers(s.log, Event(t, StoreCall(h, id), 0), t);
  }

  lemma OwnStepKeepsThreadInv(s: State, t: nat, move: Move)
    requires Shaped(s) && t < |s.pcs| && ThreadInv(s, t)
    ensures ThreadInv(Do(s, t, move), t)
  {
    match move
    case Advance => OwnAdvanceKeepsThreadInv(s, t);
    case Assign(h, id) =>
      if s.pcs[t] == Idle {
        OwnWriteKeepsThreadInv(s, t, h, id);
      }
    case _ =>
  }

  lemma DoKeepsThreadInv(s: State, t: nat, move: Move, u: nat)
    requires Inv(s) && u < |s.pcs|
    ensures ThreadInv(Do(s, t, move), u)
  {
    assert ThreadInv(s, u);
    if u == t {
      OwnStepKeepsThreadInv(s, t, move);
    } else {
      DoFrame(s, t, move);
      FrameKeepsThreadInv(s, Do(s, t, move), t, u);
    }
  }

  /** The step at which a call takes effect is a step of the atomic allocator with the same result. */
  lemma DecidingStepIsAtomic(s: State, t: nat)
    requires Inv(s) && t < |s.pcs| && Do(s, t, Advance).log != s.log
    ensures var s' := Do(s, t, Advance);
            && |s'.log| == |s.log| + 1 && s'.log[..|s.log|] == s.log
            && s'.log[|s.log|].thread == t
            && Outcome(s'.table, s'.log[|s.log|].result) == Apply(Replay(s.log), s'.log[|s.log|].call)
  {
    assert Holds(s.pcs[t]) <==> s.mutex == Some(t);
    var abs := Replay(s.log);
    match s.pcs[t]
    case NewScan(i) => LowestFreeUnique(abs.taken, i);
    case NewStamp(i) => assert Do(s, t, Advance).table == Allocate(abs).table;
    case _ =>
  }

  lemma SilentStepKeepsTableInv(s: State, t: nat)
    requires Inv(s) && t < |s.pcs| && Proceed(s, t).log == s.log
    ensures TableInv(Proceed(s, t))
  {
    assert Holds(s.pcs[t]) <==> s.mutex == Some(t);
    if s.pcs[t].NewScan? && Proceed(s, t).pcs[t].NewClaim? {
      LowestFreeUnique(Replay(s.log).taken, s.pcs[t].i);
    }
  }

  /** An assignment commutes with whatever the mutex holder is doing. */
  lemma WriteKeepsTableInv(s: State, t: nat, h: nat, id: u16)
    requires Inv(s) && t < |s.pcs| && s.pcs[t] == Idle
    ensures TableInv(Write(s, t, h, id))
  {
    if h < MAX_SESSIONS {
      AppendEvent(s.log, Event(t, StoreCall(h, id), 0));
      assert s.mutex.Some? ==> s.mutex.value < |s.pcs| && (Holds(s.pcs[s.mutex.value]) <==> true);
    }
  }

  lemma BeginKeepsTableInv(s: State, t: nat, pc: Pc)
    requires Inv(s) && t < |s.pcs| && s.pcs[t] == Idle && !Holds(pc)
    ensures TableInv(Begin(s, t, pc))
  {
    assert Holds(s.pcs[t]) <==> s.mutex == Some(t);
  }

  lemma DecidingStepKeepsTableInv(s: State, t: nat)
    requires Inv(s) && t < |s.pcs| && Do(s, t, Advance).log != s.log
    ensures TableInv(Do(s, t, Advance))
  {
    var s' := Do(s, t, Advance);
    DecidingStepIsAtomic(s, t);
    AppendEvent(s.log, s'.log[|s.log|]);
    assert s'.log == s.log + [s'.log[|s.log|]];
    assert Holds(s.pcs[t]) <==> s.mutex == Some(t);
  }

  lemma DoKeepsTableInv(s: State, t: nat, move: Move)
    requires Inv(s)
    ensures TableInv(Do(s, t, move))
  {
    if t < |s.pcs| {
      match move
      case BeginNew =>
        if s.pcs[t] == Idle {
          BeginKeepsTableInv(s, t, NewEntry);
        }
      case BeginFree(h) =>
        if s.pcs[t] == Idle {
          BeginKeepsTableInv(s, t, FreeEntry(h));
        }
      case Assign(h, id) =>
        if s.pcs[t] == Idle {
          WriteKeepsTableInv(s, t, h, id);
        }
      case Advance =>
        if Do(s, t, move).log == s.log {
          SilentStepKeepsTableInv(s, t);
        } else {
          DecidingStepKeepsTableInv(s, t);
        }
    }
  }

  lemma DoKeepsInv(s: State, t: nat, move: Move)
    requires Inv(s)
    ensures Inv(Do(s, t, move))
  {
    DoKeepsMutexInv(s, t, move);
    DoKeepsTableInv(s, t, move);
    forall u | 0 <= u < |s.pcs|
      ensures ThreadInv(Do(s, t, move), u)
    {
      DoKeepsThreadInv(s, t, move, u);
    }
  }

  lemma {:induction false} ReachableInv(threads: nat, schedule: seq<(nat, Move)>)
    ensures Inv(Execute(threads, schedule))
  {
    if schedule != [] {
      var (t, move) := schedule[|schedule| - 1];
      ReachableInv(threads, schedule[..|schedule| - 1]);
      DoKeepsInv(Execute(threads, schedule[..|schedule| - 1]), t, move);
    }
  }

  /** Linearizability, with RealTimeOrder below: whatever the interleaving, the calls took effect one at a
      time in the order of the history, each with the result of the atomic allocator and between its call
      and its return; with the mutex free the shared table is the atomic one. */
  lemma Linearizable(threads: nat, schedule: seq<(nat, Move)>, t: nat)
    requires t < threads
    ensures var s := Execute(threads, schedule);
            && Faithful(s.log)
            && (s.mutex == None ==> s.table == Replay(s.log))
            && EventsOf(s.log, t) + (if Undecided(s.pcs[t]) then 1 else 0) == s.begun[t]
            && (s.pcs[t].Returned? ==> LastOf(s.log, t) == Some(Event(t, s.pcs[t].call, s.pcs[t].result)))
  {
    ReachableInv(threads, schedule);
    assert ThreadInv(Execute(threads, schedule), t);
  }

  /** At no time are two threads between lock and unlock. */
  lemma MutualExclusion(threads: nat, schedule: seq<(nat, Move)>, t: nat, u: nat)
    requires t < threads && u < threads
    requires Holds(Execute(threads, schedule).pcs[t]) && Holds(Execute(threads, schedule).pcs[u])
    ensures t == u
  {
    ReachableInv(threads, schedule);
  }

  /** In every reachable state with the mutex free, the taken slots are the granted and not released ones. */
  lemma ConservationOverRuns(threads: nat, schedule: seq<(nat, Move)>)
    ensures var s := Execute(threads, schedule);
            && 0 <= Grants(s.log) - Releases(s.log) <= MAX_SESSIONS
            && (s.mutex == None ==> Trues(s.table.taken) == Grants(s.log) - Releases(s.log))
  {
    ReachableInv(threads, schedule);
    Conservation(Execute(threads, schedule).log);
  }

  /** History is never rewritten. */
  lemma {:induction false} HistoryGrows(threads: nat, a: seq<(nat, Move)>, b: seq<(nat, Move)>)
    ensures Execute(threads, a).log <= Execute(threads, a + b).log
  {
    if b == [] {
      assert a + b == a;
    } else {
      var (t, move) := b[|b| - 1];
      HistoryGrows(threads, a, b[..|b| - 1]);
      assert (a + b)[..|a + b| - 1] == a + b[..|b| - 1] && (a + b)[|a + b| - 1] == b[|b| - 1];
      DoFrame(Execute(threads, a + b[..|b| - 1]), t, move);
    }
  }

  lemma {:induction false} EventsOfGrows(log: seq<Event>, i: nat, j: nat, t: nat)
    requires i <= j <= |log|
    ensures EventsOf(log[..i], t) <= EventsOf(log[..j], t)
    decreases j
  {
    if i < j {
      EventsOfGrows(log, i, j - 1, t);
      assert log[..j][..j - 1] == log[..j - 1];
    }
  }

  /** How many calls of thread t have returned. */
  function Finished(s: State, t: nat): int
    requires t < |s.pcs| == |s.begun|
  {
    var begun: int := s.begun[t];
    if s.pcs[t].Idle? || s.pcs[t].Returned? then begun else begun - 1
  }

  /** Entry i of the history is call n of thread t. */
  predicate IsCall(log: seq<Event>, i: nat, t: nat, n: nat) {
    i < |log| && log[i].thread == t && EventsOf(log[..i], t) == n
  }

  lemma {:induction false} NthCall(log: seq<Event>, t: nat, n: nat) returns (i: nat)
    requires n < EventsOf(log, t)
    ensures IsCall(log, i, t, n)
  {
    var past := log[..|log| - 1];
    if n < EventsOf(past, t) {
      i := NthCall(past, t, n);
      assert past[..i] == log[..i];
    } else {
      i := |log| - 1;
    }
  }

  /** Every call that has returned is in the history. */
  lemma FinishedIsRecorded(threads: nat, schedule: seq<(nat, Move)>, t: nat, n: nat) returns (i: nat)
    requires t < threads && n < Finished(Execute(threads, schedule), t)
    ensures IsCall(Execute(threads, schedule).log, i, t, n)
  {
    ReachableInv(threads, schedule);
    assert ThreadInv(Execute(threads, schedule), t);
    i := NthCall(Execute(threads, schedule).log, t, n);
  }

  /** A call counted by a point of the history stands before it, a later one behind it. */
  lemma Straddles(log: seq<Event>, k: nat, t: nat, n: nat, i: nat, u: nat, m: nat, j: nat)
    requires k <= |log| && n < EventsOf(log[..k], t) && EventsOf(log[..k], u) <= m
    requires IsCall(log, i, t, n) && IsCall(log, j, u, m)
    ensures i < k <= j
  {
    if i >= k {
      EventsOfGrows(log, k, i, t);
    }
    if j < k {
      assert log[..j + 1] == log[..j] + [log[j]];
      AppendKeepsOthers(log[..j], log[j], u);
      EventsOfGrows(log, j + 1, k, u);
    }
  }

  /** The real-time order: if at some time call n of thread t had returned and call m of thread u had not
      begun, then n stands before m in the history from then on. */
  lemma RealTimeOrder(threads: nat, a: seq<(nat, Move)>, b: seq<(nat, Move)>,
                      t: nat, n: nat, i: nat, u: nat, m: nat, j: nat)
    requires t < threads && u < threads
    requires n < Finished(Execute(threads, a), t) && m >= Execute(threads, a).begun[u]
    requires IsCall(Execute(threads, a + b).log, i, t, n) && IsCall(Execute(threads, a + b).log, j, u, m)
    ensures i < j
  {
    var s, log := Execute(threads, a), Execute(threads, a + b).log;
    HistoryGrows(threads, a, b);
    assert log[..|s.log|] == s.log;
    assert n < EventsOf(s.log, t) && EventsOf(s.log, u) <= m by {
      ReachableInv(threads, a);
      assert ThreadInv(s, t) && ThreadInv(s, u);
    }
    Straddles(log, |s.log|, t, n, i, u, m, j);
  }

  // ----- progress -----

  /** Thread t runs n steps with nobody else moving. */
  function Solo(s: State, t: nat, n: nat): (r: State)
    requires Shaped(s)
    ensures Shaped(r) && |r.pcs| == |s.pcs|
  {
    if n == 0 then s else Do(Solo(s, t, n - 1), t, Advance)
  }

  /** The scan of a thread left alone: after 1 + i steps it looks at slot i, up to the lowest free one. */
  lemma {:induction false} SoloScans(s: State, t: nat, i: nat)
    requires Shaped(s) && t < |s.pcs| && s.pcs[t] == NewEntry && s.mutex == None && i <= LowestFree(s.table.taken)
    ensures Solo(s, t, 1 + i) == s.(mutex := Some(t), pcs := s.pcs[t := NewScan(i)])
  {
    if i == 0 {
      assert Solo(s, t, 0) == s;
    } else {
      SoloScans(s, t, i - 1);
      assert s.pcs[t := NewScan(i - 1)][t := NewScan(i)] == s.pcs[t := NewScan(i)];
    }
  }

  /** From the end of the scan to the return. */
  lemma SoloClaims(s: State, t: nat, k: nat, m: nat)
    requires Shaped(s) && t < |s.pcs| && k == LowestFree(s.table.taken) < MAX_SESSIONS
    requires Solo(s, t, m) == s.(mutex := Some(t), pcs := s.pcs[t := NewScan(k)])
    ensures Solo(s, t, m + 1).pcs[t] == NewClaim(k) && Solo(s, t, m + 2).pcs[t] == NewStamp(k)
    ensures Solo(s, t, m + 3).pcs[t] == Unlocking(NewCall, k)
    ensures Solo(s, t, m + 4).pcs[t] == Returned(NewCall, k)
    ensures Solo(s, t, m + 4).mutex == None && Solo(s, t, m + 4).table == Allocate(s.table).table
  {
    var a := Solo(s, t, m);
    var b := Solo(s, t, m + 1);
    assert b == Goto(a, t, NewClaim(k));
    var c := Solo(s, t, m + 2);
    assert c.pcs[t] == NewStamp(k) && c.table == s.table.(taken := s.table.taken[k := true]);
    var d := Solo(s, t, m + 3);
    assert d.pcs[t] == Unlocking(NewCall, k) && d.table == Allocate(s.table).table;
    assert Solo(s, t, m + 4) == Goto(d, t, Returned(NewCall, k)).(mutex := None);
  }

  lemma SoloFails(s: State, t: nat, m: nat)
    requires Shaped(s) && t < |s.pcs| && LowestFree(s.table.taken) == MAX_SESSIONS
    requires Solo(s, t, m) == s.(mutex := Some(t), pcs := s.pcs[t := NewScan(MAX_SESSIONS)])
    ensures Solo(s, t, m + 1).pcs[t] == Unlocking(NewCall, -1)
    ensures Solo(s, t, m + 2).pcs[t] == Returned(NewCall, -1)
    ensures Solo(s, t, m + 2).mutex == None && Solo(s, t, m + 2).table == s.table
  {
    var b := Solo(s, t, m + 1);
    assert b.pcs[t] == Unlocking(NewCall, -1) && b.table == s.table;
    assert Solo(s, t, m + 2) == Goto(b, t, Returned(NewCall, -1)).(mutex := None);
  }

  /** Up to the end of the scan it has not returned. */
  lemma SoloScanning(s: State, t: nat, j: nat)
    requires Shaped(s) && t < |s.pcs| && s.pcs[t] == NewEntry && s.mutex == None && j <= LowestFree(s.table.taken) + 1
    ensures !Solo(s, t, j).pcs[t].Returned?
  {
    if j > 0 {
      SoloScans(s, t, j - 1);
    }
  }

  /** session_new, left alone with the mutex free, returns within a bounded number of steps, and does not
      return earlier: the lowest free slot, or -1 if there is none. */
  lemma SoloNew(s: State, t: nat) returns (n: nat)
    requires Shaped(s) && t < |s.pcs| && s.pcs[t] == NewEntry && s.mutex == None
    ensures n <= MAX_SESSIONS + 4
    ensures Solo(s, t, n).pcs[t] == Returned(NewCall, Allocate(s.table).result)
    ensures Solo(s, t, n).mutex == None && Solo(s, t, n).table == Allocate(s.table).table
    ensures forall j :: 0 <= j < n ==> !Solo(s, t, j).pcs[t].Returned?
  {
    var k := LowestFree(s.table.taken);
    SoloScans(s, t, k);
    if k == MAX_SESSIONS {
      n := k + 3;
      SoloFails(s, t, k + 1);
    } else {
      n := k + 5;
      SoloClaims(s, t, k, k + 1);
    }
    forall j | 0 <= j < n
      ensures !Solo(s, t, j).pcs[t].Returned?
    {
      if j <= k + 1 {
        SoloScanning(s, t, j);
      } else {
        assert j == k + 2 || j == k + 3 || j == k + 4;
      }
    }
  }

  /** session_free, left alone with the mutex free, returns within four steps, and does not return earlier: 0
      with the slot free, or -1 with the table as it was; either way the mutex is free again. */
  lemma SoloFree(s: State, t: nat, h: int) returns (n: nat)
    requires Shaped(s) && t < |s.pcs| && s.pcs[t] == FreeEntry(h) && s.mutex == None
    ensures n <= 4
    ensures Solo(s, t, n).pcs[t] == Returned(FreeCall(h), Release(s.table, h).result)
    ensures Solo(s, t, n).mutex == None && Solo(s, t, n).table == Release(s.table, h).table
    ensures forall j :: 0 <= j < n ==> !Solo(s, t, j).pcs[t].Returned?
  {
    var freed := Release(s.table, h);
    var a, b, c := Solo(s, t, 1), Solo(s, t, 2), Solo(s, t, 3);
    assert Solo(s, t, 0) == s && a.pcs[t] == FreeCheck(h) && a.table == s.table;
    if freed.result == 0 {
      n := 4;
      assert b.pcs[t] == FreeWrite(h) && b.table == s.table;
      assert c.pcs[t] == Unlocking(FreeCall(h), 0) && c.table == freed.table;
    } else {
      n := 3;
      assert b.pcs[t] == Unlocking(FreeCall(h), -1) && b.table == s.table;
    }
    forall j | 0 <= j < n
      ensures !Solo(s, t, j).pcs[t].Returned?
    {
      assert j == 0 || j == 1 || j == 2 || j == 3;
    }
  }

  /** The call that a thread is in. */
  function CallOf(pc: Pc): Option<Call> {
    match pc
    case NewEntry => Some(NewCall)
    case NewScan(_) => Some(NewCall)
    case NewClaim(_) => Some(NewCall)
    case NewStamp(_) => Some(NewCall)
    case FreeEntry(h) => Some(FreeCall(h))
    case FreeCheck(h) => Some(FreeCall(h))
    case FreeWrite(h) => Some(FreeCall(h))
    case Unlocking(call, _) => Some(call)
    case Returned(call, _) => Some(call)
    case Idle => None
  }

  /** At most so many steps from here to the return. */
  function StepsLeft(pc: Pc): nat {
    match pc
    case NewScan(i) => if i <= MAX_SESSIONS then MAX_SESSIONS - i + 4 else 4
    case NewClaim(_) => 3
    case NewStamp(_) => 2
    case FreeCheck(_) => 3
    case FreeWrite(_) => 2
    case Unlocking(_, _) => 1
    case _ => 0
  }

  lemma {:induction false} SoloFirst(s: State, t: nat, n: nat)
    requires Shaped(s)
    ensures Solo(s, t, n + 1) == Solo(Do(s, t, Advance), t, n)
  {
    if n == 0 {
      assert Solo(s, t, 0) == s;
    } else {
      SoloFirst(s, t, n - 1);
    }
  }

  lemma HolderStep(s: State, t: nat)
    requires Inv(s) && s.mutex == Some(t)
    ensures var s' := Do(s, t, Advance);
            && t < |s.pcs| && CallOf(s'.pcs[t]) == CallOf(s.pcs[t])
            && if s.pcs[t].Unlocking? then s'.mutex == None && s'.pcs[t].Returned?
               else s'.mutex == Some(t) && StepsLeft(s'.pcs[t]) < StepsLeft(s.pcs[t])
  {
    assert t < |s.pcs| && Holds(s.pcs[t]);
  }

  lemma {:induction false} HolderReturns(s: State, t: nat) returns (n: nat)
    requires Inv(s) && s.mutex == Some(t)
    ensures t < |s.pcs| && n <= StepsLeft(s.pcs[t])
    ensures var r := Solo(s, t, n);
            Inv(r) && r.mutex == None && r.pcs[t].Returned? && CallOf(r.pcs[t]) == CallOf(s.pcs[t])
    decreases if t < |s.pcs| then StepsLeft(s.pcs[t]) else 0
  {
    HolderStep(s, t);
    DoKeepsInv(s, t, Advance);
    if s.pcs[t].Unlocking? {
      n := 1;
      assert Solo(s, t, 0) == s;
    } else {
      n := HolderReturns(Do(s, t, Advance), t);
      SoloFirst(s, t, n);
      n := n + 1;
    }
  }

  /** Whoever has the mutex, in either function and in any reachable state: left alone, it returns from its
      call within 260 steps and the mutex is free. */
  lemma HolderFrees(threads: nat, schedule: seq<(nat, Move)>, t: nat) returns (n: nat)
    requires Execute(threads, schedule).mutex == Some(t)
    ensures t < threads && n <= 260
    ensures var s := Execute(threads, schedule);
            var r := Solo(s, t, n);
            r.mutex == None && r.pcs[t].Returned? && CallOf(r.pcs[t]) == CallOf(s.pcs[t])
  {
    ReachableInv(threads, schedule);
    n := HolderReturns(Execute(threads, schedule), t);
  }

  function Alone(t: nat, n: nat): seq<(nat, Move)> {
    if n == 0 then [] else Alone(t, n - 1) + [(t, Advance)]
  }

  lemma ExecuteSnoc(threads: nat, schedule: seq<(nat, Move)>, t: nat, move: Move)
    ensures Execute(threads, schedule + [(t, move)]) == Do(Execute(threads, schedule), t, move)
  {
    assert (schedule + [(t, move)])[..|schedule|] == schedule;
  }

  lemma {:induction false} ExecuteAlone(threads: nat, schedule: seq<(nat, Move)>, t: nat, n: nat, s: State,
                                        run: seq<(nat, Move)>)
    requires s == Execute(threads, schedule) && run == schedule + Alone(t, n)
    ensures Shaped(s) && Execute(threads, run) == Solo(s, t, n)
    ensures |Alone(t, n)| == n
  {
    if n == 0 {
      assert run == schedule;
    } else {
      var shorter := schedule + Alone(t, n - 1);
      ExecuteAlone(threads, schedule, t, n - 1, s, shorter);
      ExecuteSnoc(threads, shorter, t, Advance);
      assert run == shorter + [(t, Advance)];
    }
  }

  /** The call that thread t was in has returned. */
  predicate Completed(before: State, after: State, t: nat) {
    && t < |before.pcs| && t < |after.pcs|
    && after.pcs[t].Returned? && CallOf(after.pcs[t]) == CallOf(before.pcs[t])
  }

  /** A waiting thread returns if it is left alone while the mutex is free. */
  lemma WaiterReturns(s: State, t: nat) returns (n: nat)
    requires Inv(s) && t < |s.pcs| && s.mutex == None && (s.pcs[t].NewEntry? || s.pcs[t].FreeEntry?)
    ensures n <= 260 && Completed(s, Solo(s, t, n), t)
  {
    if s.pcs[t].NewEntry? {
      n := SoloNew(s, t);
    } else {
      n := SoloFree(s, t, s.pcs[t].h);
    }
  }

  lemma WaitingIfNotHolding(s: State, t: nat)
    requires Inv(s) && t < |s.pcs| && s.mutex != Some(t) && CallOf(s.pcs[t]) != None && !s.pcs[t].Returned?
    ensures s.pcs[t].NewEntry? || s.pcs[t].FreeEntry?
  {
    assert !Holds(s.pcs[t]);
  }

  /** The holder, if there is one, returns, and then the waiting thread. */
  lemma EveryoneReturns(s: State, t: nat) returns (u: nat, m: nat, n: nat)
    requires Inv(s) && t < |s.pcs| && CallOf(s.pcs[t]) != None
    ensures m <= 260 && n <= 260 && Completed(s, Solo(Solo(s, u, m), t, n), t)
  {
    u, m, n := t, 0, 0;
    if !s.pcs[t].Returned? {
      if s.mutex == None {
        WaitingIfNotHolding(s, t);
        n := WaiterReturns(s, t);
      } else if s.mutex == Some(t) {
        n := HolderReturns(s, t);
      } else {
        u := s.mutex.value;
        m := HolderReturns(s, u);
        SoloKeepsOthers(s, u, m, t);
        WaitingIfNotHolding(s, t);
        n := WaiterReturns(Solo(s, u, m), t);
      }
    }
  }

  /** No deadlock: from every reachable state, every thread that is in a call can be brought back out of it,
      by at most 520 steps of the mutex holder and of itself. */
  lemma NoDeadlock(threads: nat, schedule: seq<(nat, Move)>, t: nat) returns (more: seq<(nat, Move)>)
    requires t < threads && CallOf(Execute(threads, schedule).pcs[t]) != None
    ensures |more| <= 520
    ensures Completed(Execute(threads, schedule), Execute(threads, schedule + more), t)
  {
    var s := Execute(threads, schedule);
    ReachableInv(threads, schedule);
    var u, m, n := EveryoneReturns(s, t);
    var first := schedule + Alone(u, m);
    more := Alone(u, m) + Alone(t, n);
    assert schedule + more == first + Alone(t, n);
    ExecuteAlone(threads, schedule, u, m, s, first);
    ExecuteAlone(threads, first, t, n, Solo(s, u, m), schedule + more);
  }

  /** Any thread that is not in a call can make one, in any reachable state, and be brought to its return. */
  lemma AnyCallCompletes(threads: nat, schedule: seq<(nat, Move)>, t: nat, move: Move)
    returns (more: seq<(nat, Move)>)
    requires t < threads && Execute(threads, schedule).pcs[t] == Idle && (move.BeginNew? || move.BeginFree?)
    ensures |more| <= 520
    ensures var pc := Execute(threads, schedule + [(t, move)] + more).pcs[t];
            pc.Returned? && pc.call == if move.BeginNew? then NewCall else FreeCall(move.h)
  {
    ExecuteSnoc(threads, schedule, t, move);
    more := NoDeadlock(threads, schedule + [(t, move)], t);
  }

  lemma {:induction false} SoloKeepsOthers(s: State, t: nat, n: nat, u: nat)
    requires Shaped(s) && u < |s.pcs| && u != t
    ensures Solo(s, t, n).pcs[u] == s.pcs[u]
  {
    if n > 0 {
      SoloKeepsOthers(s, t, n - 1, u);
      DoFrame(Solo(s, t, n - 1), t, Advance);
    }
  }
}
