/** Wait queues (src/kernel/process.c:317-365) and the mutex built on them (src/kernel/sync.c). */
module Mutex {
  import opened MutexModel

  const READY: nat := 0
  const RUNNING: nat := 1
  const BLOCKED: nat := 2

  class Pcb {
    const pid: nat
    var state: nat
    var next: Pcb?

    constructor (pid: nat)
      ensures this.pid == pid && state == READY && next == null
    {
      this.pid, state, next := pid, READY, null;
    }
  }

  /** The process at position `i` of a queue is blocked and links to the next one. */
  ghost predicate LinkedAt(q: seq<Pcb>, i: nat)
    requires i < |q|
    reads q
  {
    q[i].state == BLOCKED && q[i].next == if i + 1 < |q| then q[i + 1] else null
  }

  /** A singly linked queue of blocked processes with a tail pointer. */
  class WaitQueue {
    var head: Pcb?
    var tail: Pcb?
    ghost var waiting: seq<Pcb>  // from head to tail

    ghost predicate Valid()
      reads this, waiting
    {
      && (if waiting == [] then head == null && tail == null
          else head == waiting[0] && tail == waiting[|waiting| - 1])
      && (forall i :: 0 <= i < |waiting| ==> LinkedAt(waiting, i))
      && (forall i, j :: 0 <= i < j < |waiting| ==> waiting[i] != waiting[j])
    }

    /** `wait_queue_init`. */
    constructor ()
      ensures Valid() && waiting == []
    {
      head, tail, waiting := null, null, [];
    }

    /** `process_block` up to its call of the scheduler: the current process joins the tail, except that the idle
        process never blocks. */
    method Block(current: Pcb?)
      requires Valid() && (current != null ==> current !in waiting)
      modifies this, waiting, current
      ensures Valid()
      ensures current == null || current.pid == 0 ==> waiting == old(waiting)
      ensures current != null && current.pid != 0 ==> waiting == old(waiting) + [current]
      ensures forall p :: p in old(waiting) ==> p.state == old(p.state)
    {
      if current == null { return; }
      if current.pid == 0 { return; }
      current.state := BLOCKED;
      current.next := null;
      ghost var n := |waiting|;
      if tail != null {
        tail.next := current;
      } else {
        head := current;
      }
      tail := current;
      waiting := waiting + [current];
      forall i | 0 <= i < n ensures LinkedAt(waiting, i) {
        assert old(LinkedAt(waiting, i));
      }
    }

    /** `process_wake`: the longest waiting process leaves the queue and becomes ready. */
    method Wake() returns (woken: Pcb?)
      requires Valid()
      modifies this, waiting
      ensures Valid()
      ensures old(waiting) == [] ==> woken == null && waiting == []
      ensures old(waiting) != [] ==>
        woken == old(waiting)[0] && waiting == old(waiting)[1..] && woken.state == READY && woken.next == null
      ensures forall p :: p in old(waiting) && p != woken ==> p.state == old(p.state)
    {
      if head == null { return null; }
      var waiter := head;
      assert LinkedAt(waiting, 0);
      head := waiter.next;
      if head == null { tail := null; }
      waiter.next := null;
      waiter.state := READY;
      waiting := waiting[1..];
      forall i | 0 <= i < |waiting| ensures LinkedAt(waiting, i) {
        assert old(LinkedAt(waiting, i + 1));
      }
      woken := waiter;
    }

    /** `process_wake_all`: everyone becomes ready, longest waiting first. */
    method WakeAll() returns (order: seq<Pcb>)
      requires Valid()
      modifies this, waiting
      ensures Valid() && waiting == [] && order == old(waiting)
      ensures forall p :: p in order ==> p.state == READY
    {
      order := [];
      ghost var all := waiting;
      while head != null
        invariant |order| <= |all| && order == all[..|order|] && waiting == all[|order|..]
        invariant Valid()
        invariant forall i :: 0 <= i < |order| ==> order[i].state == READY
        decreases |waiting|
      {
        var woken := Wake();
        order := order + [woken];
      }
    }
  }

  class Lock {
    var locked: int
    const waiters: WaitQueue

    ghost predicate Valid()
      reads this, waiters, waiters.waiting
    {
      waiters.Valid() && (locked == 0 || locked == 1)
    }

    ghost function Abs(): Core<Pcb>
      reads this, waiters
    {
      Core(locked, waiters.waiting)
    }

    /** `mutex_init`. */
    constructor ()
      ensures Valid() && Abs() == Core(0, []) && fresh(waiters)
    {
      locked := 0;
      waiters := new WaitQueue();
    }

    /** `atomic_xchg` on the lock word (sync.h:22-29). */
    method Exchange(value: int) returns (before: int)
      modifies this`locked
      ensures before == old(locked) && locked == value
    {
      before := locked;
      locked := value;
    }

    /** One interrupts-off stretch of `mutex_lock`, from spin count 0 on entry or 1 after a wakeup: the caller
        acquires the lock, or spins without effect and then blocks. */
    method Acquire(current: Pcb, entrySpin: nat) returns (acquired: bool)
      requires Valid() && current !in waiters.waiting && current.pid != 0 && entrySpin <= 1
      modifies this`locked, waiters, waiters.waiting, current
      ensures Valid()
      ensures Abs() == LockCore(old(Abs()), current)
      ensures acquired <==> old(locked) == 0
      ensures !acquired ==> current.state == BLOCKED
    {
      var spin := entrySpin;
      while true
        invariant Valid() && Abs() == old(Abs()) && current !in waiters.waiting
        invariant spin <= 8
        decreases 8 - spin
      {
        if locked == 0 {
          var before := Exchange(1);
          if before == 0 { return true; }
        }
        if spin < 8 {
          spin := spin + 1;
        } else {
          waiters.Block(current);
          assert LinkedAt(waiters.waiting, |waiters.waiting| - 1);
          return false;
        }
      }
    }

    /** `mutex_unlock`: releases the lock and wakes the longest waiting process. */
    method Release() returns (woken: Pcb?)
      requires Valid()
      modifies this`locked, waiters, waiters.waiting
      ensures Valid()
      ensures Abs() == UnlockCore(old(Abs()))
      ensures if old(waiters.waiting) == [] then woken == null
              else woken == old(waiters.waiting)[0] && woken.state == READY
    {
      locked := 0;
      woken := waiters.Wake();
    }

    /** `mutex_trylock`. */
    method TryAcquire() returns (acquired: bool)
      requires Valid()
      modifies this`locked
      ensures Valid()
      ensures Abs() == TryLockCore(old(Abs()))
      ensures acquired <==> old(locked) == 0
    {
      var before := Exchange(1);
      acquired := before == 0;
    }
  }
}
