/**
 The blocking mutex as a protocol between any number of threads (src/kernel/sync.c:12-71).

 Interrupts are off from the start of each mutex call until it returns or blocks, so each such stretch is one
 atomic step.  The scheduler may pick any thread that is not blocked.
 */
module MutexModel {
  import opened Runs

  /** The mutex itself: its `locked` word and its wait queue, longest waiting first. */
  datatype Core<T> = Core(locked: int, queue: seq<T>)

  /** `mutex_lock` up to its return or its `process_block`. */
  function LockCore<T>(c: Core<T>, t: T): Core<T>
  {
    if c.locked == 0 then c.(locked := 1) else c.(queue := c.queue + [t])
  }

  function UnlockCore<T>(c: Core<T>): Core<T>
  {
    Core(0, if c.queue == [] then [] else c.queue[1..])
  }

  function TryLockCore<T>(c: Core<T>): Core<T> { c.(locked := 1) }

  type Tid = nat

  /** Where a thread stands: not using the mutex, holding it, asleep on the wait queue, or woken inside
      `mutex_lock` and about to try again. */
  datatype Place = Outside | Holding | Blocked | Woken

  datatype State = State(core: Core<Tid>, at: map<Tid, Place>)
  datatype Event = Lock(t: Tid) | Unlock(t: Tid) | TryLock(t: Tid)

  ghost predicate Initial(s: State)
  {
    s.core == Core(0, []) && forall t :: t in s.at ==> s.at[t] == Outside
  }

  /** What a thread may do: a blocked one nothing, a woken one is inside `mutex_lock` and tries again, any other makes
      whatever call it likes. */
  ghost predicate Enabled(s: State, e: Event)
  {
    e.t in s.at && s.at[e.t] != Blocked && (s.at[e.t] == Woken ==> e.Lock?)
  }

  /** The calls that a mutex is meant for: a holder does not lock again, and nobody but the holder unlocks a held
      mutex. */
  ghost predicate Polite(s: State, e: Event)
    requires e.t in s.at
  {
    match e
    case Lock(t) => s.at[t] != Holding
    case Unlock(t) => s.at[t] == Holding || s.core.locked == 0
    case TryLock(_) => true
  }

  function Next(s: State, e: Event): State
  {
    match e
    case Lock(t) =>
      State(LockCore(s.core, t), s.at[t := if s.core.locked == 0 then Holding else Blocked])
    case Unlock(t) =>
      var at := s.at[t := Outside];
      State(UnlockCore(s.core), if s.core.queue == [] then at else at[s.core.queue[0] := Woken])
    case TryLock(t) =>
      State(TryLockCore(s.core), if s.core.locked == 0 then s.at[t := Holding] else s.at)
  }

  ghost predicate Holds(s: State, t: Tid) { t in s.at && s.at[t] == Holding }

  ghost predicate Inv(s: State)
  {
    // the lock word is 1 exactly when there is a holder, and there is at most one
    && (s.core.locked == 0 || s.core.locked == 1)
    && (s.core.locked == 1 <==> exists t :: Holds(s, t))
    && (forall t, u :: Holds(s, t) && Holds(s, u) ==> t == u)
    // the wait queue lists the blocked threads, each once
    && (forall i :: 0 <= i < |s.core.queue| ==> s.core.queue[i] in s.at && s.at[s.core.queue[i]] == Blocked)
    && (forall i, j :: 0 <= i < j < |s.core.queue| ==> s.core.queue[i] != s.core.queue[j])
    && (forall t :: t in s.at && s.at[t] == Blocked ==> t in s.core.queue)
    // no wakeup is lost
    && (s.core.locked == 0 && s.core.queue != [] ==> exists t :: t in s.at && s.at[t] == Woken)
  }

  lemma LockKeeps(s: State, t: Tid)
    requires Inv(s) && Enabled(s, Lock(t)) && s.at[t] != Holding
    ensures Inv(Next(s, Lock(t)))
  {
    var s' := Next(s, Lock(t));
    if s.core.locked == 0 {
      assert Holds(s', t);
      forall u ensures Holds(s', u) <==> u == t { assert !Holds(s, u); }
    } else {
      var h :| Holds(s, h);
      assert Holds(s', h);
      forall u ensures Holds(s', u) <==> u == h { assert Holds(s, u) <==> u == h; }
      assert s'.core.queue[|s.core.queue|] == t;
    }
  }

  /** A lock keeps the invariant exactly when its caller does not hold the mutex already. */
  lemma LockSafeExactly(s: State, t: Tid)
    requires Inv(s) && Enabled(s, Lock(t))
    ensures Inv(Next(s, Lock(t))) <==> s.at[t] != Holding
  {
    if s.at[t] != Holding {
      LockKeeps(s, t);
    } else {
      SecondLockSticks(s, t, Next(s, Lock(t)));
    }
  }

  /** The mutex is taken and nobody is there to release it. */
  ghost predicate Stuck(s: State) { s.core.locked == 1 && forall t :: !Holds(s, t) }

  lemma SecondLockSticks(s: State, t: Tid, s': State)
    requires Inv(s) && Holds(s, t) && s' == Next(s, Lock(t))
    ensures Stuck(s')
  {
    forall u ensures !Holds(s', u) { assert Holds(s, u) ==> u == t; }
  }

  lemma TryLockKeeps(s: State, t: Tid)
    requires Inv(s) && Enabled(s, TryLock(t))
    ensures Inv(Next(s, TryLock(t)))
  {
    var s' := Next(s, TryLock(t));
    if s.core.locked == 0 {
      assert Holds(s', t);
      forall u ensures Holds(s', u) <==> u == t { assert !Holds(s, u); }
    } else {
      assert s' == s;
    }
  }

  lemma UnlockKeeps(s: State, t: Tid)
    requires Inv(s) && Enabled(s, Unlock(t)) && (s.at[t] == Holding || s.core.locked == 0)
    ensures Inv(Next(s, Unlock(t)))
  {
    var s' := Next(s, Unlock(t));
    var q := s.core.queue;
    forall u ensures !Holds(s', u) {
      assert Holds(s, t) || s.core.locked == 0;
      assert Holds(s, u) ==> u == t;
    }
    if q != [] {
      assert s'.at[q[0]] == Woken;
      forall u | u in s'.at && s'.at[u] == Blocked ensures u in q[1..] {
        assert u in q && u != q[0];
      }
    }
  }

  /** Only the holder may unlock a held mutex: any other thread's unlock breaks the invariant, and unlocking a
      free mutex is harmless. */
  lemma UnlockSafeExactly(s: State, t: Tid)
    requires Inv(s) && Enabled(s, Unlock(t))
    ensures Inv(Next(s, Unlock(t))) <==> s.at[t] == Holding || s.core.locked == 0
  {
    if s.at[t] == Holding || s.core.locked == 0 {
      UnlockKeeps(s, t);
    } else {
      var h :| Holds(s, h);
      var s' := Next(s, Unlock(t));
      assert s.core.queue != [] ==> s.core.queue[0] != h;
      assert Holds(s', h);
    }
  }

  ghost predicate Follows(s: State, e: Event, s': State) { Enabled(s, e) && s' == Next(s, e) }

  ghost predicate Run(states: seq<State>, events: seq<Event>)
  {
    IsRun(Follows, states, events) && Initial(states[0])
  }

  ghost predicate PoliteAt(states: seq<State>, events: seq<Event>, j: nat)
    requires IsRun(Follows, states, events) && j < |events|
  {
    assert Follows(states[j], events[j], states[j + 1]);
    Polite(states[j], events[j])
  }

  lemma StepSafeExactly(s: State, e: Event, s': State)
    requires Inv(s) && Follows(s, e, s')
    ensures Inv(s') <==> Polite(s, e)
  {
    match e
    case Lock(t) => LockSafeExactly(s, t);
    case Unlock(t) => UnlockSafeExactly(s, t);
    case TryLock(t) => TryLockKeeps(s, t);
  }

  /** Mutual exclusion and no lost wakeup, for any number of threads, any calls and any schedule: they hold all along a
      run exactly when all its calls were polite. */
  lemma {:induction false} EveryRunIsSafe(states: seq<State>, events: seq<Event>, i: nat)
    requires Run(states, events) && i <= |events|
    ensures (forall k :: 0 <= k <= i ==> Inv(states[k])) <==> (forall j :: 0 <= j < i ==> PoliteAt(states, events, j))
  {
    if i > 0 {
      EveryRunIsSafe(states, events, i - 1);
      if forall k :: 0 <= k < i ==> Inv(states[k]) {
        assert Inv(states[i - 1]);
        StepSafeExactly(states[i - 1], events[i - 1], states[i]);
        assert PoliteAt(states, events, i - 1) <==> Inv(states[i]);
      }
    }
  }

  /** A run in which a stranger unlocks: thread 0 locks, thread 1 unlocks and then locks, and both hold the mutex. */
  lemma StrangersUnlockBreaks(states: seq<State>, events: seq<Event>)
    requires Run(states, events) && states[0].at == map[0 := Outside, 1 := Outside]
    requires events == [Lock(0), Unlock(1), Lock(1)]
    ensures Holds(states[3], 0) && Holds(states[3], 1)
  {
    assert Follows(states[0], events[0], states[1]);
    assert Follows(states[1], events[1], states[2]);
    assert Follows(states[2], events[2], states[3]);
  }

  lemma StaysStuck(s: State, e: Event, s': State)
    requires Stuck(s) && Follows(s, e, s') && Polite(s, e)
    ensures Stuck(s')
  {
    assert !Holds(s, e.t);
    forall u ensures !Holds(s', u) { assert !Holds(s, u); }
  }

  /** When a holder locks again, no thread ever holds the mutex again, whatever the schedule, unless a stranger
      unlocks it. */
  lemma {:induction false} SecondLockIsForever(s: State, t: Tid, states: seq<State>, events: seq<Event>, i: nat)
    requires Inv(s) && Holds(s, t) && IsRun(Follows, states, events) && states[0] == Next(s, Lock(t)) && i <= |events|
    requires forall j :: 0 <= j < i ==> PoliteAt(states, events, j)
    ensures Stuck(states[i])
  {
    if i == 0 {
      SecondLockSticks(s, t, states[0]);
    } else {
      SecondLockIsForever(s, t, states, events, i - 1);
      assert PoliteAt(states, events, i - 1);
      StaysStuck(states[i - 1], events[i - 1], states[i]);
    }
  }

  // ---------- who gets the mutex ----------

  /** A lock takes a free mutex and falls asleep on a held one; a try-lock takes a free one and never sleeps; an unlock
      leaves nobody holding that did not hold before. */
  lemma CallsTakeExactly(s: State, t: Tid)
    requires Inv(s) && t in s.at
    ensures Enabled(s, Lock(t)) ==> Next(s, Lock(t)).at[t] == if s.core.locked == 0 then Holding else Blocked
    ensures Enabled(s, TryLock(t)) ==> Next(s, TryLock(t)).at[t] == if s.core.locked == 0 then Holding else s.at[t]
    ensures Enabled(s, Unlock(t)) ==> Next(s, Unlock(t)).core.locked == 0 && Next(s, Unlock(t)).at[t] == Outside
  {
    assert s.core.queue != [] ==> s.at[s.core.queue[0]] == Blocked;
  }

  /** Thread `t` is woken by a step from `s` to `s'`. */
  ghost predicate Wakes(s: State, s': State, t: Tid)
  {
    t in s.at && s.at[t] == Blocked && t in s'.at && s'.at[t] == Woken
  }

  ghost predicate WakesSomeone(s: State, s': State) { exists t :: Wakes(s, s', t) }

  ghost predicate FallsAsleep(e: Event, s': State) { e.Lock? && e.t in s'.at && s'.at[e.t] == Blocked }

  /** A thread that falls asleep goes to the end of the queue, and only the first of the queue is woken. */
  lemma QueueMoves(s: State, e: Event, s': State)
    requires Inv(s) && Follows(s, e, s') && Polite(s, e)
    ensures FallsAsleep(e, s') ==> s'.core.queue == s.core.queue + [e.t] && forall t :: !Wakes(s, s', t)
    ensures forall t :: Wakes(s, s', t) ==>
      s.core.queue != [] && t == s.core.queue[0] && s'.core.queue == s.core.queue[1..]
    ensures !FallsAsleep(e, s') && (forall t :: !Wakes(s, s', t)) ==> s'.core.queue == s.core.queue
  {
    if e.Unlock? && s.core.queue != [] {
      assert s.at[s.core.queue[0]] == Blocked;
      assert Wakes(s, s', s.core.queue[0]);
    }
  }

  /** The threads that fell asleep in the first `i` steps, in order. */
  ghost function Slept(states: seq<State>, events: seq<Event>, i: nat): seq<Tid>
    requires |states| == |events| + 1 && i <= |events|
  {
    if i == 0 then []
    else Slept(states, events, i - 1) + if FallsAsleep(events[i - 1], states[i]) then [events[i - 1].t] else []
  }

  /** How many of the first `i` steps woke a thread. */
  ghost function Wakeups(states: seq<State>, i: nat): nat
    requires i < |states|
  {
    if i == 0 then 0 else Wakeups(states, i - 1) + if WakesSomeone(states[i - 1], states[i]) then 1 else 0
  }

  lemma OrderMoves(s: State, e: Event, s': State, slept: seq<Tid>, n: nat, slept': seq<Tid>, n': nat)
    requires Inv(s) && Follows(s, e, s') && Polite(s, e) && n <= |slept| && s.core.queue == slept[n..]
    requires slept' == slept + if FallsAsleep(e, s') then [e.t] else []
    requires n' == n + if WakesSomeone(s, s') then 1 else 0
    ensures n' <= |slept'| && s'.core.queue == slept'[n'..]
  {
    QueueMoves(s, e, s');
    if WakesSomeone(s, s') {
      var t :| Wakes(s, s', t);
      assert slept[n..][1..] == slept[n + 1..] && slept + [] == slept;
    }
  }

  lemma PoliteRunIsSafe(states: seq<State>, events: seq<Event>, i: nat)
    requires Run(states, events) && i <= |events| && forall j :: 0 <= j < i ==> PoliteAt(states, events, j)
    ensures Inv(states[i])
  {
    EveryRunIsSafe(states, events, i);
  }

  /** Threads are woken in the order in which they fell asleep: while all calls are polite, those asleep are the last of
      those that ever slept. */
  lemma {:induction false} WokenInOrder(states: seq<State>, events: seq<Event>, i: nat)
    requires Run(states, events) && i <= |events| && forall j :: 0 <= j < i ==> PoliteAt(states, events, j)
    ensures Wakeups(states, i) <= |Slept(states, events, i)|
    ensures states[i].core.queue == Slept(states, events, i)[Wakeups(states, i)..]
  {
    if i > 0 {
      PoliteRunIsSafe(states, events, i - 1);
      WokenInOrder(states, events, i - 1);
      assert Follows(states[i - 1], events[i - 1], states[i]) && PoliteAt(states, events, i - 1);
      OrderMoves(states[i - 1], events[i - 1], states[i], Slept(states, events, i - 1), Wakeups(states, i - 1),
                 Slept(states, events, i), Wakeups(states, i));
    }
  }

  /** And whoever is woken next is the first of these. */
  lemma NextWoken(states: seq<State>, events: seq<Event>, i: nat, t: Tid)
    requires Run(states, events) && i < |events| && forall j :: 0 <= j <= i ==> PoliteAt(states, events, j)
    requires Wakes(states[i], states[i + 1], t)
    ensures Wakeups(states, i) < |Slept(states, events, i)| && t == Slept(states, events, i)[Wakeups(states, i)]
  {
    PoliteRunIsSafe(states, events, i);
    WokenInOrder(states, events, i);
    assert Follows(states[i], events[i], states[i + 1]) && PoliteAt(states, events, i);
    QueueMoves(states[i], events[i], states[i + 1]);
  }

  /** Progress: while threads sleep on the mutex, either a holder can release it, or a woken thread can take it
      at once. */
  lemma SleepersAreServed(s: State)
    requires Inv(s) && s.core.queue != []
    ensures exists t :: t in s.at && Serves(s, t)
  {
    if s.core.locked == 1 {
      var h :| Holds(s, h);
      assert Serves(s, h);
    } else {
      var t :| t in s.at && s.at[t] == Woken;
      assert Serves(s, t);
    }
  }

  /** `t` can step now, and its step passes the mutex on: the holder wakes the longest waiting thread, a woken thread
      takes the free lock. */
  ghost predicate Serves(s: State, t: Tid)
    requires s.core.queue != [] && t in s.at
  {
    if s.core.locked == 1 then
      Holds(s, t) && Enabled(s, Unlock(t)) && Next(s, Unlock(t)).at[s.core.queue[0]] == Woken
    else
      Enabled(s, Lock(t)) && s.at[t] == Woken && Holds(Next(s, Lock(t)), t)
  }
}
