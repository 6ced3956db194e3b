/** Who can get the library lock (src/library.c): a thread enters a free lock, and every lock comes free. */
module LibraryProgress {
  import opened LibraryLock

  // ----- runs -----

  function Runs(s: State, events: seq<Event>): State
    decreases |events|
  {
    if events == [] then s else Runs(Apply(s, events[0]), events[1..])
  }

  lemma {:induction false} RunsJoin(s: State, a: seq<Event>, b: seq<Event>)
    ensures Runs(s, a + b) == Runs(Runs(s, a), b)
    decreases |a|
  {
    if a == [] {
      assert a + b == b;
    } else {
      RunsJoin(Apply(s, a[0]), a[1..], b);
      assert (a + b)[1..] == a[1..] + b;
    }
  }

  lemma {:induction false} AfterRuns(events: seq<Event>, more: seq<Event>)
    ensures After(events + more) == Runs(After(events), more)
    decreases |more|
  {
    if more == [] {
      assert events + more == events;
    } else {
      AfterRuns(events + [more[0]], more[1..]);
      assert events + [more[0]] + more[1..] == events + more;
      assert (events + [more[0]])[..|events|] == events;
    }
  }

  /** Nobody is spawned and nobody terminates. */
  predicate IsQuiet(events: seq<Event>) {
    forall i :: 0 <= i < |events| ==> !events[i].Spawn? && !events[i].Terminate?
  }

  /** The state can come to the other one, and the same threads are live. */
  ghost predicate Leads(s: State, s': State) {
    && Invariant(s') && (forall t :: IsLive(s, t) <==> IsLive(s', t))
    && exists events :: IsQuiet(events) && Runs(s, events) == s'
  }

  lemma LeadsOn(s: State, s': State, s'': State)
    requires Leads(s, s') && Leads(s', s'')
    ensures Leads(s, s'')
  {
    var a :| IsQuiet(a) && Runs(s, a) == s';
    var b :| IsQuiet(b) && Runs(s', b) == s'';
    RunsJoin(s, a, b);
    assert IsQuiet(a + b);
  }

  lemma LiveStays(s: State, e: Event)
    requires !e.Spawn? && !e.Terminate?
    ensures forall t :: IsLive(s, t) <==> IsLive(Apply(s, e), t)
  {
  }

  lemma LeadsTo(s: State, e: Event) returns (s': State)
    requires Invariant(s) && !e.Spawn? && !e.Terminate?
    ensures s' == Apply(s, e) && Leads(s, s')
  {
    s' := Apply(s, e);
    EventKeepsInvariant(s, e);
    LiveStays(s, e);
    assert [e][1..] == [] && Runs(s, [e]) == s' && IsQuiet([e]);
  }

  lemma LeadsNowhere(s: State)
    requires Invariant(s)
    ensures Leads(s, s)
  {
    assert Runs(s, []) == s && IsQuiet([]);
  }

  // ----- one thread alone -----

  /** The state after `n` steps of one thread alone. */
  function Alone(s: State, t: Thread, n: nat): State
    decreases n
  {
    if n == 0 then s else Apply(Alone(s, t, n - 1), Step(t))
  }

  /** The thread is outside of its operations, at this depth. */
  predicate IsAt(s: State, t: Thread, depth: int) {
    t in s.threads && s.threads[t] == Local(Idle, false, depth)
  }

  predicate IsFree(s: State) {
    s.mutex.Nobody? && IsDead(s, s.owner)
  }

  /** The thread has entered: it is the owner, once, and the others are where they were. */
  predicate HasEntered(s: State, s': State, t: Thread)
    requires t in s.threads
  {
    s' == State(Somebody(t), 1, Nobody, s.threads[t := Local(Idle, false, 1)])
  }

  /** A thread that waits enters exactly when MUTEX is free and the owner is nobody or terminated; while there is
      another owner, or another thread holds MUTEX, it comes back to where it was. */
  lemma WaitingEnters(s: State, t: Thread)
    requires Invariant(s) && IsLive(s, t) && s.threads[t].pc == Acquire
    ensures if s.mutex.Somebody? then Alone(s, t, 1) == s
            else if IsFree(s) then HasEntered(s, Alone(s, t, 7), t)
            else Alone(s, t, 5) == s
  {
    assert IsConsistent(s, t);
    if s.mutex.Somebody? {
      assert Alone(s, t, 1) == Apply(Alone(s, t, 0), Step(t));
    } else {
      Looks(s, t);
      if IsFree(s) {
        Takes(s, t);
      } else {
        Leaves(s, t);
      }
    }
  }

  /** The first three steps: MUTEX is taken and the owner is looked at. */
  lemma Looks(s: State, t: Thread)
    requires IsLive(s, t) && s.threads[t].pc == Acquire && s.mutex.Nobody?
    ensures Alone(s, t, 3) == At(s.(mutex := Somebody(t)), t, if IsDead(s, s.owner) then SetOwner else Release)
  {
    assert Alone(s, t, 1) == Apply(Alone(s, t, 0), Step(t)) == At(s.(mutex := Somebody(t)), t, ReadOwner);
    assert Alone(s, t, 2) == At(s.(mutex := Somebody(t)), t, TestOwner(s.owner));
  }

  lemma Takes(s: State, t: Thread)
    requires IsLive(s, t) && s.threads[t].depth == 0
    requires Alone(s, t, 3) == At(s.(mutex := Somebody(t)), t, SetOwner)
    ensures HasEntered(s, Alone(s, t, 7), t)
  {
    assert Alone(s, t, 4) == At(s.(mutex := Somebody(t), owner := Somebody(t)), t, SetCount);
    var s5 := At(s.(mutex := Somebody(t), owner := Somebody(t), count := 1), t, Release);
    assert Alone(s, t, 5) == s5;
    ReleasesAndEnters(s, t, s5);
    assert Alone(s, t, 6) == Apply(s5, Step(t)) && Alone(s, t, 7) == Apply(Alone(s, t, 6), Step(t));
  }

  lemma ReleasesAndEnters(s: State, t: Thread, s5: State)
    requires IsLive(s, t) && s.threads[t].depth == 0
    requires s5 == At(s.(mutex := Somebody(t), owner := Somebody(t), count := 1), t, Release)
    ensures HasEntered(s, Apply(Apply(s5, Step(t)), Step(t)), t)
  {
    assert Apply(s5, Step(t)) == At(s.(mutex := Nobody, owner := Somebody(t), count := 1), t, CheckOwner);
  }

  lemma Leaves(s: State, t: Thread)
    requires IsLive(s, t) && s.threads[t].pc == Acquire && s.mutex.Nobody? && s.owner != Somebody(t)
    requires Alone(s, t, 3) == At(s.(mutex := Somebody(t)), t, Release)
    ensures Alone(s, t, 5) == s
  {
    assert Alone(s, t, 4) == At(s, t, CheckOwner);
    assert Alone(s, t, 5) == At(s, t, Acquire);
    assert s.threads[t := s.threads[t].(pc := Acquire)] == s.threads;
  }

  // ----- whole operations -----

  /** LOCK_LIBRARIES or UNLOCK_LIBRARIES, run by one thread alone: from a free lock in eight steps, nested in three,
      and out in three.  A thread that is outside of its operations stays there. */
  function Locked(s: State, t: Thread): State {
    Alone(Apply(s, Lock(t)), t, 8)
  }

  function Unlocked(s: State, t: Thread): State {
    Alone(Apply(s, Unlock(t)), t, 3)
  }

  lemma {:induction false} FirstStep(s: State, t: Thread, n: nat)
    ensures Alone(s, t, n + 1) == Alone(Apply(s, Step(t)), t, n)
    decreases n
  {
    if n > 0 {
      FirstStep(s, t, n - 1);
    } else {
      assert Alone(s, t, 1) == Apply(Alone(s, t, 0), Step(t));
    }
  }

  lemma {:induction false} IdleStays(s: State, t: Thread, n: nat)
    requires IsLive(s, t) && s.threads[t].pc == Idle
    ensures Alone(s, t, n) == s
  {
    if n > 0 {
      IdleStays(s, t, n - 1);
    }
  }

  /** The lock is held by a thread outside of its operations. */
  function Holding(s: State, t: Thread, depth: nat): State {
    State(if depth == 0 then Nobody else Somebody(t), depth, s.mutex, s.threads[t := Local(Idle, false, depth)])
  }

  /** A thread that is outside takes a free lock. */
  lemma LockTakes(s: State, t: Thread)
    requires Invariant(s) && IsAt(s, t, 0) && IsFree(s)
    ensures Locked(s, t) == Holding(s, t, 1)
  {
    assert IsConsistent(s, t);
    var s1 := Apply(s, Lock(t));
    var s2 := Apply(s1, Step(t));
    EventKeepsInvariant(s, Lock(t));
    EventKeepsInvariant(s1, Step(t));
    FirstStep(s1, t, 7);
    WaitingEnters(s2, t);
    assert s2.threads[t := Local(Idle, false, 1)] == s.threads[t := Local(Idle, false, 1)];
  }

  /** A nested lock goes one deeper. */
  lemma LockNests(s: State, t: Thread, depth: nat)
    requires depth > 0 && t in s.threads
    ensures Locked(Holding(s, t, depth), t) == Holding(s, t, depth + 1)
  {
    var h := Holding(s, t, depth);
    var s1 := Apply(h, Lock(t));
    var s2, s3 := Apply(s1, Step(t)), Apply(Apply(s1, Step(t)), Step(t));
    assert s1.threads[t] == Local(Locking, false, depth);
    assert s2.threads[t] == Local(ReadCount, false, depth);
    assert s3.threads[t] == Local(WriteCount(depth), false, depth);
    FirstStep(s1, t, 7);
    FirstStep(s2, t, 6);
    FirstStep(s3, t, 5);
    assert Apply(s3, Step(t)) == Holding(s, t, depth + 1);
    IdleStays(Holding(s, t, depth + 1), t, 5);
  }

  /** An unlock goes one out, and the last one frees the lock. */
  lemma UnlockLeaves(s: State, t: Thread, depth: nat)
    requires depth > 0 && t in s.threads
    ensures Unlocked(Holding(s, t, depth), t) == Holding(s, t, depth - 1)
  {
    var h := Holding(s, t, depth);
    var s1 := Apply(h, Unlock(t));
    var s2 := Apply(s1, Step(t));
    assert s1.threads[t] == Local(ReadDown, false, depth);
    assert s2.threads[t] == Local(WriteDown(depth), false, depth);
    FirstStep(s1, t, 2);
    FirstStep(s2, t, 1);
    if depth > 1 {
      assert Apply(s2, Step(t)) == Holding(s, t, depth - 1);
      IdleStays(Holding(s, t, depth - 1), t, 1);
    } else {
      LastUnlock(s, t, s2);
    }
  }

  lemma LastUnlock(s: State, t: Thread, s2: State)
    requires t in s.threads && s2 == At(Holding(s, t, 1), t, WriteDown(1))
    ensures Alone(Apply(s2, Step(t)), t, 1) == Holding(s, t, 0)
  {
    var s3 := State(Somebody(t), 0, s.mutex, s.threads[t := Local(ClearOwner, false, 0)]);
    assert Apply(s2, Step(t)) == s3;
    ClearsOwner(s, t, s3);
  }

  lemma ClearsOwner(s: State, t: Thread, s3: State)
    requires t in s.threads && s3 == State(Somebody(t), 0, s.mutex, s.threads[t := Local(ClearOwner, false, 0)])
    ensures Alone(s3, t, 1) == Holding(s, t, 0)
  {
    FirstStep(s3, t, 0);
  }

  function LockedTimes(s: State, t: Thread, n: nat): State {
    if n == 0 then s else Locked(LockedTimes(s, t, n - 1), t)
  }

  function UnlockedTimes(s: State, t: Thread, n: nat): State
    decreases n
  {
    if n == 0 then s else UnlockedTimes(Unlocked(s, t), t, n - 1)
  }

  lemma {:induction false} LocksNest(s: State, t: Thread, n: nat)
    requires Invariant(s) && IsAt(s, t, 0) && IsFree(s) && n > 0
    ensures LockedTimes(s, t, n) == Holding(s, t, n)
  {
    if n == 1 {
      assert LockedTimes(s, t, 0) == s;
      LockTakes(s, t);
    } else {
      LocksNest(s, t, n - 1);
      LockNests(s, t, n - 1);
    }
  }

  lemma {:induction false} UnlocksLeave(s: State, t: Thread, n: nat)
    requires t in s.threads
    ensures UnlockedTimes(Holding(s, t, n), t, n) == Holding(s, t, 0)
  {
    if n > 0 {
      UnlockLeaves(s, t, n);
      UnlocksLeave(s, t, n - 1);
    }
  }

  /** From every reachable state in which the lock is free: any number of nested locks of one thread leaves it the owner
      at that depth, and as many unlocks free the lock again. */
  lemma MatchingUnlocksFree(events: seq<Event>, t: Thread, n: nat)
    requires IsAt(After(events), t, 0) && IsFree(After(events)) && n > 0
    ensures var s := After(events);
            && LockedTimes(s, t, n) == Holding(s, t, n) && IsInside(Holding(s, t, n), t)
            && UnlockedTimes(LockedTimes(s, t, n), t, n) == Holding(s, t, 0) && IsFree(Holding(s, t, 0))
  {
    InvariantHolds(events);
    LocksNest(After(events), t, n);
    UnlocksLeave(After(events), t, n);
  }

  // ----- every lock comes free -----

  lemma {:induction false} AloneLeads(s: State, t: Thread, n: nat)
    requires Invariant(s)
    ensures Leads(s, Alone(s, t, n))
  {
    if n == 0 {
      LeadsNowhere(s);
    } else {
      AloneLeads(s, t, n - 1);
      var s' := LeadsTo(Alone(s, t, n - 1), Step(t));
      LeadsOn(s, Alone(s, t, n - 1), s');
    }
  }

  /** Steps until MUTEX is released. */
  function ToRelease(pc: Pc): nat {
    match pc
    case ReadOwner => 5
    case TestOwner(_) => 4
    case SetOwner => 3
    case SetCount => 2
    case _ => 1
  }

  /** Whoever holds MUTEX and lives can release it. */
  lemma {:induction false} Releases(s: State, u: Thread) returns (s': State)
    requires Invariant(s) && IsLive(s, u) && s.mutex == Somebody(u)
    ensures Leads(s, s') && s'.mutex.Nobody?
    decreases ToRelease(s.threads[u].pc)
  {
    assert IsConsistent(s, u);
    s' := LeadsTo(s, Step(u));
    if s.threads[u].pc != Release {
      var s1 := s';
      s' := Releases(s1, u);
      LeadsOn(s, s1, s');
    }
  }

  /** Steps until the owner is outside of its operations. */
  function ToIdle(pc: Pc): nat {
    match pc
    case Idle => 0
    case Locking => 3
    case ReadCount => 2
    case ReadDown => 3
    case WriteDown(_) => 2
    case _ => 1
  }

  lemma {:induction false} OwnerEndsOperation(s: State, o: Thread) returns (s': State)
    requires Invariant(s) && IsLive(s, o) && s.owner == Somebody(o) && s.mutex.Nobody?
    ensures Leads(s, s') && s'.mutex.Nobody?
    ensures s'.owner.Nobody? || (s'.owner == Somebody(o) && s'.threads[o].pc == Idle)
    decreases ToIdle(s.threads[o].pc)
  {
    assert IsConsistent(s, o);
    if s.threads[o].pc == Idle {
      s' := s;
      LeadsNowhere(s);
    } else {
      s' := LeadsTo(s, Step(o));
      if s'.owner.Somebody? {
        var s1 := s';
        s' := OwnerEndsOperation(s1, o);
        LeadsOn(s, s1, s');
      }
    }
  }

  lemma UnlockLeads(s: State, o: Thread)
    requires Invariant(s)
    ensures Leads(s, Unlocked(s, o))
  {
    var s1 := LeadsTo(s, Unlock(o));
    AloneLeads(s1, o, 3);
    LeadsOn(s, s1, Unlocked(s, o));
  }

  lemma {:induction false} OwnerLeaves(s: State, o: Thread, depth: nat)
    requires Invariant(Holding(s, o, depth)) && o in s.threads
    ensures Leads(Holding(s, o, depth), Holding(s, o, 0))
  {
    var h := Holding(s, o, depth);
    if depth == 0 {
      LeadsNowhere(h);
    } else {
      UnlockLeads(h, o);
      UnlockLeaves(s, o, depth);
      OwnerLeaves(s, o, depth - 1);
      LeadsOn(h, Holding(s, o, depth - 1), Holding(s, o, 0));
    }
  }

  /** A terminated thread holds MUTEX. */
  predicate IsHeldByDead(s: State) {
    s.mutex.Somebody? && !IsLive(s, s.mutex.value)
  }

  lemma GetsFree(s: State, t: Thread) returns (s': State)
    requires Invariant(s) && !IsHeldByDead(s)
    ensures Leads(s, s') && (IsFree(s') || IsInside(s', t))
  {
    var s1 := s;
    LeadsNowhere(s);
    if s.mutex.Somebody? {
      s1 := Releases(s, s.mutex.value);
    }
    s' := s1;
    if !IsDead(s1, s1.owner) {
      s' := OwnerGoes(s1, s1.owner.value, t);
      LeadsOn(s, s1, s');
    }
  }

  lemma OwnerGoes(s: State, o: Thread, t: Thread) returns (s': State)
    requires Invariant(s) && IsLive(s, o) && s.owner == Somebody(o) && s.mutex.Nobody?
    ensures Leads(s, s') && (IsFree(s') || IsInside(s', t))
  {
    s' := OwnerEndsOperation(s, o);
    if s'.owner.Somebody? && o != t {
      var s1 := s';
      var depth := s1.threads[o].depth;
      assert IsConsistent(s1, o);
      assert s1.threads[o := Local(Idle, false, depth)] == s1.threads;
      assert s1 == Holding(s1, o, depth);
      OwnerLeaves(s1, o, depth);
      s' := Holding(s1, o, 0);
      LeadsOn(s, s1, s');
    } else {
      assert s'.owner.Somebody? ==> IsConsistent(s', o);
    }
  }

  lemma WaitingLeads(s: State, t: Thread) returns (s': State)
    requires Invariant(s) && IsLive(s, t) && IsFree(s) && s.threads[t].pc == Acquire
    ensures Leads(s, s') && IsInside(s', t)
  {
    s' := Alone(s, t, 7);
    AloneLeads(s, t, 7);
    WaitingEnters(s, t);
  }

  lemma Enters(s: State, t: Thread) returns (s': State)
    requires Invariant(s) && IsLive(s, t) && IsFree(s)
    ensures Leads(s, s') && IsInside(s', t)
  {
    assert IsConsistent(s, t);
    if s.threads[t].pc == Acquire {
      s' := WaitingLeads(s, t);
    } else {
      var s1 := s;
      LeadsNowhere(s);
      if s.threads[t].pc == Idle {
        s1 := LeadsTo(s, Lock(t));
      }
      var s2 := LeadsTo(s1, Step(t));
      LeadsOn(s, s1, s2);
      s' := WaitingLeads(s2, t);
      LeadsOn(s, s2, s');
    }
  }

  /** Nobody gets in while a terminated thread holds MUTEX. */
  ghost predicate IsShutOut(s: State, t: Thread) {
    && Invariant(s) && IsHeldByDead(s) && t in s.threads
    && (IsLive(s, t) ==> s.owner != Somebody(t) || s.threads[t].pc == ClearOwner)
  }

  lemma StaysShutOut(s: State, t: Thread, e: Event)
    requires IsShutOut(s, t)
    ensures IsShutOut(Apply(s, e), t)
  {
    EventKeepsInvariant(s, e);
    var u := e.thread;
    assert IsLive(s, u) ==> IsConsistent(s, u);
    assert IsLive(s, t) ==> IsConsistent(s, t);
  }

  lemma {:induction false} NeverEnters(s: State, t: Thread, events: seq<Event>)
    requires IsShutOut(s, t)
    ensures !IsInside(Runs(s, events), t)
    decreases |events|
  {
    if events == [] {
      assert IsLive(s, t) ==> IsConsistent(s, t);
    } else {
      StaysShutOut(s, t, events[0]);
      NeverEnters(Apply(s, events[0]), t, events[1..]);
    }
  }

  ghost predicate CanEnter(events: seq<Event>, t: Thread) {
    exists more {:trigger IsQuiet(more)} :: IsQuiet(more) && IsInside(After(events + more), t)
  }

  /** In every reachable state, a live thread can still get in, by steps, locks and unlocks of live threads alone,
      exactly
      when no terminated thread holds MUTEX, unless it has the lock already. */
  lemma NoDeadlock(events: seq<Event>, t: Thread)
    requires IsLive(After(events), t)
    ensures var s := After(events);
            CanEnter(events, t) <==>
              !IsHeldByDead(s) || (s.owner == Somebody(t) && s.threads[t].pc != ClearOwner)
  {
    var s := After(events);
    InvariantHolds(events);
    assert IsConsistent(s, t);
    if !IsHeldByDead(s) {
      var s1 := GetsFree(s, t);
      var s2 := s1;
      if !IsInside(s1, t) {
        s2 := Enters(s1, t);
        LeadsOn(s, s1, s2);
      }
      LedInside(events, s2, t);
    } else if s.owner == Somebody(t) && s.threads[t].pc != ClearOwner {
      AloneLeads(s, t, 1);
      LeadsNowhere(s);
      FirstStep(s, t, 0);
      LedInside(events, if IsInside(s, t) then s else Alone(s, t, 1), t);
    } else {
      forall more | IsQuiet(more) ensures !IsInside(After(events + more), t) {
        AfterRuns(events, more);
        NeverEnters(s, t, more);
      }
    }
  }

  lemma LedInside(events: seq<Event>, s': State, t: Thread)
    requires Leads(After(events), s') && IsInside(s', t)
    ensures CanEnter(events, t)
  {
    var more :| IsQuiet(more) && Runs(After(events), more) == s';
    AfterRuns(events, more);
  }
}
