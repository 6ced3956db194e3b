/**
 The library lock (src/library.c): a re-entrant spin lock over `OWNER` and `COUNT`.  `MUTEX` guards only the
 acquisition; nested locking and unlocking touch the variables without it.  Every access to a shared variable
 is a step of its own, and the steps of all threads interleave freely.
 */
module LibraryLock {
  datatype Option<T> = Nobody | Somebody(value: T)

  /** Where a thread is in LOCK_LIBRARIES or UNLOCK_LIBRARIES. */
  datatype Pc =
    | Idle
    | Locking                       // compares OWNER with itself
    | ReadCount                     // nested: COUNT++ reads ...
    | WriteCount(read: int)         // ... and writes
    | Acquire                       // waits for MUTEX
    | ReadOwner
    | TestOwner(seen: Option<Thread>)
    | SetOwner
    | SetCount
    | Release
    | CheckOwner                    // leaves the loop or yields
    | ReadDown                      // --COUNT reads ...
    | WriteDown(read: int)          // ... and writes
    | ClearOwner

  datatype Thread = Thread(id: nat)

  /** `depth` counts the locks a thread holds: completed locks less completed decrements. */
  datatype Local = Local(pc: Pc, terminated: bool, depth: int)

  datatype State = State(owner: Option<Thread>, count: int, mutex: Option<Thread>, threads: map<Thread, Local>)

  datatype Event =
    | Spawn(thread: Thread)
    | Lock(thread: Thread)
    | Unlock(thread: Thread)
    | Step(thread: Thread)
    | Terminate(thread: Thread)

  function Start(): State {
    State(Nobody, 0, Nobody, map[])
  }

  predicate IsLive(s: State, t: Thread) {
    t in s.threads && !s.threads[t].terminated
  }

  function At(s: State, t: Thread, pc: Pc): State
    requires t in s.threads
  {
    s.(threads := s.threads[t := s.threads[t].(pc := pc)])
  }

  function AtDepth(s: State, t: Thread, pc: Pc, depth: int): State
    requires t in s.threads
  {
    s.(threads := s.threads[t := s.threads[t].(pc := pc, depth := depth)])
  }

  /** One step of a live thread; it stays where it is while it waits for MUTEX. */
  function StepOf(s: State, t: Thread): State
    requires IsLive(s, t)
  {
    var depth := s.threads[t].depth;
    match s.threads[t].pc
    case Idle => s
    case Locking => At(s, t, if s.owner != Somebody(t) then Acquire else ReadCount)
    case ReadCount => At(s, t, WriteCount(s.count))
    case WriteCount(read) => AtDepth(s.(count := read + 1), t, Idle, depth + 1)
    case Acquire => if s.mutex.Nobody? then At(s.(mutex := Somebody(t)), t, ReadOwner) else s
    case ReadOwner => At(s, t, TestOwner(s.owner))
    case TestOwner(seen) => At(s, t, if seen.Nobody? || !IsLive(s, seen.value) then SetOwner else Release)
    case SetOwner => At(s.(owner := Somebody(t)), t, SetCount)
    case SetCount => At(s.(count := 1), t, Release)
    case Release => At(s.(mutex := Nobody), t, CheckOwner)
    case CheckOwner => if s.owner == Somebody(t) then AtDepth(s, t, Idle, 1) else At(s, t, Acquire)
    case ReadDown => At(s, t, WriteDown(s.count))
    case WriteDown(read) => AtDepth(s.(count := read - 1), t, if read - 1 <= 0 then ClearOwner else Idle, depth - 1)
    case ClearOwner => At(s.(owner := Nobody), t, Idle)
  }

  /** What an event does; an event that is not possible does nothing.  A thread may terminate anywhere, and
      unlocks only what it has locked. */
  function Apply(s: State, e: Event): State {
    var t := e.thread;
    if e.Spawn? then (if t in s.threads then s else s.(threads := s.threads[t := Local(Idle, false, 0)]))
    else if !IsLive(s, t) then s
    else match e
      case Lock(_) => if s.threads[t].pc == Idle then At(s, t, Locking) else s
      case Unlock(_) => if s.threads[t].pc == Idle && s.threads[t].depth > 0 then At(s, t, ReadDown) else s
      case Step(_) => StepOf(s, t)
      case Terminate(_) => s.(threads := s.threads[t := s.threads[t].(terminated := true)])
  }

  function After(events: seq<Event>): State {
    if events == [] then Start() else Apply(After(events[..|events| - 1]), events[|events| - 1])
  }

  // ----- the invariant -----

  predicate IsDead(s: State, o: Option<Thread>) {
    o.Nobody? || !IsLive(s, o.value)
  }

  /** What holds of a live thread at each place. */
  predicate IsConsistent(s: State, t: Thread)
    requires t in s.threads
  {
    var depth, owns, holds := s.threads[t].depth, s.owner == Somebody(t), s.mutex == Somebody(t);
    match s.threads[t].pc
    case Idle => !holds && depth >= 0 && (owns <==> depth > 0) && (owns ==> s.count == depth)
    case Locking => !holds && depth >= 0 && (owns <==> depth > 0) && (owns ==> s.count == depth)
    case ReadCount => !holds && owns && depth > 0 && s.count == depth
    case WriteCount(read) => !holds && owns && depth > 0 && s.count == depth == read
    case Acquire => !holds && !owns && depth == 0
    case ReadOwner => holds && !owns && depth == 0
    case TestOwner(seen) => holds && !owns && depth == 0 && (s.owner == seen || s.owner.Nobody?)
    case SetOwner => holds && !owns && depth == 0 && IsDead(s, s.owner)
    case SetCount => holds && owns && depth == 0
    case Release => holds && depth == 0 && (owns ==> s.count == 1)
    case CheckOwner => !holds && depth == 0 && (owns ==> s.count == 1)
    case ReadDown => !holds && owns && depth > 0 && s.count == depth
    case WriteDown(read) => !holds && owns && depth > 0 && s.count == depth == read
    case ClearOwner => !holds && owns && depth == 0 && s.count == 0
  }

  predicate Invariant(s: State) {
    && (s.owner.Somebody? ==> s.owner.value in s.threads)
    && (s.mutex.Somebody? ==> s.mutex.value in s.threads)
    && forall t {:trigger IsConsistent(s, t)} :: t in s.threads && IsLive(s, t) ==> IsConsistent(s, t)
  }

  /** A thread's own event keeps what holds of it. */
  lemma OwnEvent(s: State, e: Event)
    requires Invariant(s) && e.thread in s.threads && IsLive(s, e.thread) && IsConsistent(s, e.thread)
    ensures IsLive(Apply(s, e), e.thread) ==> IsConsistent(Apply(s, e), e.thread)
  {
  }

  /** Another thread's event keeps what holds of a live thread. */
  lemma OtherEvent(s: State, e: Event, t: Thread)
    requires e.thread in s.threads && IsLive(s, e.thread) && IsConsistent(s, e.thread)
    requires t != e.thread && t in s.threads && IsLive(s, t) && IsConsistent(s, t)
    ensures IsConsistent(Apply(s, e), t)
  {
  }

  lemma EventKeepsInvariant(s: State, e: Event)
    requires Invariant(s)
    ensures Invariant(Apply(s, e))
  {
    var s', u := Apply(s, e), e.thread;
    if u in s.threads && IsLive(s, u) {
      assert IsConsistent(s, u);
      forall t | t in s'.threads && IsLive(s', t) ensures IsConsistent(s', t) {
        assert t in s.threads && IsConsistent(s, t);
        if t == u {
          OwnEvent(s, e);
        } else {
          OtherEvent(s, e, t);
        }
      }
    } else {
      forall t | t in s'.threads && IsLive(s', t) ensures IsConsistent(s', t) {
        assert t in s.threads ==> IsConsistent(s, t);
      }
    }
  }

  lemma {:induction false} InvariantHolds(events: seq<Event>)
    ensures Invariant(After(events))
    decreases |events|
  {
    if events != [] {
      InvariantHolds(events[..|events| - 1]);
      EventKeepsInvariant(After(events[..|events| - 1]), events[|events| - 1]);
    }
  }

  // ----- what the lock promises -----

  predicate IsInside(s: State, t: Thread) {
    IsLive(s, t) && s.threads[t].depth > 0
  }

  /** In every interleaving at most one live thread is inside, and it is the owner. */
  lemma MutualExclusion(events: seq<Event>, t: Thread, u: Thread)
    ensures var s := After(events);
            && (IsInside(s, t) && IsInside(s, u) ==> t == u)
            && (IsInside(s, t) ==> s.owner == Somebody(t))
  {
    var s := After(events);
    InvariantHolds(events);
    assert t in s.threads && IsLive(s, t) ==> IsConsistent(s, t);
    assert u in s.threads && IsLive(s, u) ==> IsConsistent(s, u);
  }

  /** Between its operations, a live owner's nesting depth is COUNT; whoever else is live and idle holds nothing. */
  lemma CountIsDepth(events: seq<Event>, t: Thread)
    ensures var s := After(events);
            IsLive(s, t) && s.threads[t].pc == Idle ==>
              if s.owner == Somebody(t) then s.count == s.threads[t].depth > 0 else s.threads[t].depth == 0
  {
    var s := After(events);
    InvariantHolds(events);
    assert t in s.threads && IsLive(s, t) ==> IsConsistent(s, t);
  }

  /** Only the owner changes COUNT; OWNER goes from a thread to nobody only by that thread, and to a thread only
      by that thread itself, while it holds MUTEX, from nobody or from a terminated owner. */
  lemma OnlyOwnersChange(events: seq<Event>, e: Event)
    ensures var s, s' := After(events), After(events + [e]);
            && (s'.count != s.count ==> s.owner == Somebody(e.thread))
            && (s'.owner != s.owner ==>
                  if s'.owner.Nobody? then s.owner == Somebody(e.thread) && s.count == 0
                  else s'.owner == Somebody(e.thread) && s.mutex == Somebody(e.thread) && IsDead(s, s.owner))
  {
    var s, t := After(events), e.thread;
    assert (events + [e])[..|events|] == events;
    InvariantHolds(events);
    assert t in s.threads && IsLive(s, t) ==> IsConsistent(s, t);
  }
}
