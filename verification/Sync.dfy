/** The blocking primitives (os/src/sync): each call is one atomic kernel section on one core. */
module Sync {
  import opened Basics

  type Thread = nat

  class Semaphore {
    var count: int
    var waitQueue: seq<Thread>

    /** As many threads wait as `count` is below zero. */
    ghost predicate Valid()
      reads this
    {
      |waitQueue| == if count < 0 then -count else 0
    }

    constructor (resCount: nat)
      ensures Valid() && count == resCount && waitQueue == []
    {
      count, waitQueue := resCount, [];
    }

    /** `task` is the thread the call wakes, if any. */
    method Up() returns (task: Option<Thread>)
      requires Valid()
      modifies this
      ensures Valid() && count == old(count) + 1
      ensures task.Some? <==> old(count) < 0
      ensures old(waitQueue) == (if task.Some? then [task.value] else []) + waitQueue
    {
      task := None;
      count := count + 1;
      if count <= 0 {
        if waitQueue != [] {
          task, waitQueue := Some(waitQueue[0]), waitQueue[1..];
        }
      }
    }

    /** `blocks` says that the calling thread was queued and must give up the processor. */
    method Down(current: Thread) returns (blocks: bool)
      requires Valid()
      modifies this
      ensures Valid() && count == old(count) - 1
      ensures blocks <==> old(count) <= 0
      ensures waitQueue == old(waitQueue) + (if blocks then [current] else [])
    {
      blocks := false;
      count := count - 1;
      if count < 0 {
        waitQueue := waitQueue + [current];
        blocks := true;
      }
    }
  }

  datatype SemaphoreOp = Down(thread: Thread) | Up

  /** The threads that asked for a unit, in order. */
  ghost function Downs(ops: seq<SemaphoreOp>): seq<Thread> {
    if ops == [] then []
    else Downs(ops[..|ops| - 1]) + (if ops[|ops| - 1].Down? then [ops[|ops| - 1].thread] else [])
  }

  ghost function Ups(ops: seq<SemaphoreOp>): nat {
    if ops == [] then 0 else Ups(ops[..|ops| - 1]) + (if ops[|ops| - 1].Up? then 1 else 0)
  }

  /** Every history of calls: downs complete in the order they were issued, exactly as many as the
      initial count and the ups allow; the rest wait, and there are as many of them as `count` is
      below zero. */
  method RunSemaphore(initial: nat, ops: seq<SemaphoreOp>) returns (granted: seq<Thread>, semaphore: Semaphore)
    ensures |granted| == Min(|Downs(ops)|, initial + Ups(ops))
    ensures granted + semaphore.waitQueue == Downs(ops)
    ensures semaphore.count == initial + Ups(ops) - |Downs(ops)|
    ensures |semaphore.waitQueue| == if semaphore.count < 0 then -semaphore.count else 0
  {
    semaphore := new Semaphore(initial);
    granted := [];
    for i := 0 to |ops|
      invariant fresh(semaphore) && semaphore.Valid()
      invariant granted + semaphore.waitQueue == Downs(ops[..i])
      invariant semaphore.count == initial + Ups(ops[..i]) - |Downs(ops[..i])|
    {
      assert ops[..i + 1][..i] == ops[..i];
      ghost var waiting := semaphore.waitQueue;
      match ops[i]
      case Down(thread) =>
        var blocks := semaphore.Down(thread);
        if !blocks {
          assert waiting == [];
          granted := granted + [thread];
        } else {
          assert granted + (waiting + [thread]) == (granted + waiting) + [thread];
        }
      case Up =>
        var task := semaphore.Up();
        if task.Some? {
          assert granted + ([task.value] + semaphore.waitQueue) == (granted + [task.value]) + semaphore.waitQueue;
          granted := granted + [task.value];
        }
    }
    assert ops[..|ops|] == ops;
  }

  class MutexBlocking {
    var locked: bool
    var waitQueue: seq<Thread>

    /** An unlocked mutex has no waiters. */
    ghost predicate Valid()
      reads this
    {
      !locked ==> waitQueue == []
    }

    constructor ()
      ensures Valid() && !locked && waitQueue == []
    {
      locked, waitQueue := false, [];
    }

    method Lock(current: Thread) returns (blocks: bool)
      requires Valid()
      modifies this
      ensures Valid() && locked
      ensures blocks == old(locked)
      ensures waitQueue == old(waitQueue) + (if blocks then [current] else [])
    {
      if locked {
        waitQueue := waitQueue + [current];
        blocks := true;
      } else {
        locked := true;
        blocks := false;
      }
    }

    /** The mutex passes straight to the first waiter; `ok` is false where the source asserts and panics. */
    method Unlock() returns (ok: bool, wakingTask: Option<Thread>)
      requires Valid()
      modifies this
      ensures Valid() && ok == old(locked)
      ensures !ok ==> wakingTask == None && !locked
      ensures ok ==> (wakingTask.Some? <==> locked)
      ensures old(waitQueue) == (if wakingTask.Some? then [wakingTask.value] else []) + waitQueue
    {
      ok, wakingTask := true, None;
      if !locked {
        return false, None;
      }
      if waitQueue != [] {
        wakingTask, waitQueue := Some(waitQueue[0]), waitQueue[1..];
      } else {
        locked := false;
      }
    }
  }

  class Condvar {
    var waitQueue: seq<Thread>

    constructor ()
      ensures waitQueue == []
    {
      waitQueue := [];
    }

    method Signal() returns (task: Option<Thread>)
      modifies this
      ensures task.Some? <==> old(waitQueue) != []
      ensures old(waitQueue) == (if task.Some? then [task.value] else []) + waitQueue
    {
      task := None;
      if waitQueue != [] {
        task, waitQueue := Some(waitQueue[0]), waitQueue[1..];
      }
    }

    /** The part of `wait` before the processor is given up: in one atomic section the mutex is
        released or handed over and the caller is queued. */
    method Wait(mutex: MutexBlocking, current: Thread) returns (ok: bool, wakingTask: Option<Thread>)
      requires mutex.Valid()
      modifies this, mutex
      ensures mutex.Valid() && ok == old(mutex.locked)
      ensures ok ==> (wakingTask.Some? <==> mutex.locked) && waitQueue == old(waitQueue) + [current]
      ensures !ok ==> waitQueue == old(waitQueue) && wakingTask == None
      ensures old(mutex.waitQueue) == (if wakingTask.Some? then [wakingTask.value] else []) + mutex.waitQueue
    {
      ok, wakingTask := mutex.Unlock();
      if ok {
        waitQueue := waitQueue + [current];
      }
    }
  }

  /** Calls on one mutex and one condition variable used with it. A woken waiter takes the mutex
      again with an ordinary `Lock`. */
  datatype MonitorOp = Lock(thread: Thread) | Unlock(thread: Thread) | Wait(thread: Thread) | Signal

  ghost predicate Releases(op: MonitorOp) {
    op.Unlock? || op.Wait?
  }

  /** The threads that asked for the mutex, in order. */
  ghost function Locks(ops: seq<MonitorOp>): seq<Thread> {
    if ops == [] then []
    else Locks(ops[..|ops| - 1]) + (if ops[|ops| - 1].Lock? then [ops[|ops| - 1].thread] else [])
  }

  ghost function Unlocks(ops: seq<MonitorOp>): nat {
    if ops == [] then 0 else Unlocks(ops[..|ops| - 1]) + (if Releases(ops[|ops| - 1]) then 1 else 0)
  }

  /** At every release more locks than releases were issued before it. */
  ghost predicate NeverOverUnlocked(ops: seq<MonitorOp>) {
    forall i | 0 <= i < |ops| && Releases(ops[i]) :: Unlocks(ops[..i]) < |Locks(ops[..i])|
  }

  /** The threads that waited on the condition variable, in order. */
  ghost function Waits(ops: seq<MonitorOp>): seq<Thread> {
    if ops == [] then []
    else Waits(ops[..|ops| - 1]) + (if ops[|ops| - 1].Wait? then [ops[|ops| - 1].thread] else [])
  }

  /** Signals that found a waiter. */
  ghost function Heard(ops: seq<MonitorOp>): (n: nat)
    ensures n <= |Waits(ops)|
  {
    if ops == [] then 0
    else
      var n := Heard(ops[..|ops| - 1]);
      if ops[|ops| - 1].Signal? && n < |Waits(ops[..|ops| - 1])| then n + 1 else n
  }

  ghost function Signals(ops: seq<MonitorOp>): nat {
    if ops == [] then 0 else Signals(ops[..|ops| - 1]) + (if ops[|ops| - 1].Signal? then 1 else 0)
  }

  /** A queue from which `served` has been taken in order. */
  ghost predicate Fifo(issued: seq<Thread>, served: seq<Thread>, queue: seq<Thread>) {
    issued == served + queue
  }

  lemma FifoStep(issued: seq<Thread>, served: seq<Thread>, queue: seq<Thread>, more: seq<Thread>, head: seq<Thread>,
            rest: seq<Thread>)
    requires Fifo(issued, served, queue) && queue + more == head + rest
    ensures Fifo(issued + more, served + head, rest)
  {
    assert (served + queue) + more == served + (queue + more);
    assert served + (head + rest) == (served + head) + rest;
  }

  /** What a history of calls that did not panic has come to. */
  class Monitor {
    const mutex: MutexBlocking
    const condvar: Condvar
    var granted: seq<Thread>
    var woken: seq<Thread>

    ghost predicate Valid(ops: seq<MonitorOp>)
      reads this, mutex, condvar
    {
      && mutex.Valid() && NeverOverUnlocked(ops)
      && Fifo(Locks(ops), granted, mutex.waitQueue) && |granted| == Unlocks(ops) + (if mutex.locked then 1 else 0)
      && Fifo(Waits(ops), woken, condvar.waitQueue) && |woken| == Heard(ops)
    }

    constructor ()
      ensures Valid([]) && fresh(mutex) && fresh(condvar)
    {
      mutex := new MutexBlocking();
      condvar := new Condvar();
      granted, woken := [], [];
    }

    /** One call after the calls `ops`; `ok` is false where the source panics. */
    method Step(op: MonitorOp, ghost ops: seq<MonitorOp>) returns (ok: bool)
      requires Valid(ops)
      modifies this, mutex, condvar
      ensures ok <==> (Releases(op) ==> Unlocks(ops) < |Locks(ops)|)
      ensures ok ==> Valid(ops + [op])
    {
      hide Fifo, Locks, Unlocks, Waits, Heard, NeverOverUnlocked;
      ghost var locks, waits, granted0, woken0 := Locks(ops), Waits(ops), granted, woken;
      ghost var mq, cq := mutex.waitQueue, condvar.waitQueue;
      assert |locks| == |granted| + |mq| && |waits| == |woken| + |cq| by {
        FifoLength(locks, granted, mq);
        FifoLength(waits, woken, cq);
      }
      OneMore(ops, op);
      assert locks + [] == locks && waits + [] == waits && granted0 + [] == granted0 && woken0 + [] == woken0;
      ok := true;
      match op {
        case Lock(thread) =>
          var blocks := mutex.Lock(thread);
          FifoStep(locks, granted, mq, [thread], if blocks then [] else [thread], mutex.waitQueue);
          if !blocks {
            granted := granted + [thread];
          }
        case Unlock(thread) =>
          var next;
          ok, next := mutex.Unlock();
          FifoStep(locks, granted, mq, [], if next.Some? then [next.value] else [], mutex.waitQueue);
          if next.Some? {
            granted := granted + [next.value];
          }
        case Wait(thread) =>
          var next;
          ok, next := condvar.Wait(mutex, thread);
          if ok {
            FifoStep(locks, granted, mq, [], if next.Some? then [next.value] else [], mutex.waitQueue);
            FifoStep(waits, woken, cq, [thread], [], condvar.waitQueue);
            if next.Some? {
              granted := granted + [next.value];
            }
          }
        case Signal =>
          var task := condvar.Signal();
          FifoStep(waits, woken, cq, [], if task.Some? then [task.value] else [], condvar.waitQueue);
          if task.Some? {
            woken := woken + [task.value];
          }
      }
    }
  }

  lemma FifoLength(issued: seq<Thread>, served: seq<Thread>, queue: seq<Thread>)
    requires Fifo(issued, served, queue)
    ensures |issued| == |served| + |queue|
  {
  }

  lemma OneMore(ops: seq<MonitorOp>, op: MonitorOp)
    ensures Locks(ops + [op]) == Locks(ops) + if op.Lock? then [op.thread] else []
    ensures Unlocks(ops + [op]) == Unlocks(ops) + if Releases(op) then 1 else 0
    ensures Waits(ops + [op]) == Waits(ops) + if op.Wait? then [op.thread] else []
    ensures Heard(ops + [op]) == Heard(ops) + if op.Signal? && Heard(ops) < |Waits(ops)| then 1 else 0
    ensures NeverOverUnlocked(ops + [op]) <==> NeverOverUnlocked(ops) && (Releases(op) ==> Unlocks(ops) < |Locks(ops)|)
  {
    var more := ops + [op];
    assert more[..|ops|] == ops;
    assert forall i | 0 <= i <= |ops| :: more[..i] == ops[..i];
    assert forall i | 0 <= i < |ops| :: more[i] == ops[i];
    if NeverOverUnlocked(more) {
      forall i | 0 <= i < |ops| && Releases(ops[i]) ensures Unlocks(ops[..i]) < |Locks(ops[..i])| {
        assert Releases(more[i]);
      }
    }
  }

  /** The threads that have been granted the mutex, in order: one more than it was released. */
  ghost function Granted(ops: seq<MonitorOp>): seq<Thread> {
    Locks(ops)[..Min(|Locks(ops)|, Unlocks(ops) + 1)]
  }

  /** The threads that released the mutex, in order. */
  ghost function Releasers(ops: seq<MonitorOp>): seq<Thread> {
    if ops == [] then []
    else Releasers(ops[..|ops| - 1]) + (if Releases(ops[|ops| - 1]) then [ops[|ops| - 1].thread] else [])
  }

  /** The threads that were granted the mutex and have not released it since. */
  ghost function Holders(ops: seq<MonitorOp>): multiset<Thread> {
    multiset(Granted(ops)) - multiset(Releasers(ops))
  }

  /** Every release comes from a thread that holds the mutex at that point. */
  ghost predicate Disciplined(ops: seq<MonitorOp>) {
    forall i | 0 <= i < |ops| && Releases(ops[i]) :: ops[i].thread in Holders(ops[..i])
  }

  lemma DisciplinedPrefix(ops: seq<MonitorOp>, n: nat)
    requires Disciplined(ops) && n <= |ops|
    ensures Disciplined(ops[..n])
  {
    hide Holders;
    var init := ops[..n];
    forall i | 0 <= i < n && Releases(init[i]) ensures init[i].thread in Holders(init[..i]) {
      assert init[i] == ops[i] && init[..i] == ops[..i];
    }
  }

  lemma ReleasersMore(ops: seq<MonitorOp>, op: MonitorOp)
    ensures multiset(Releasers(ops + [op])) == multiset(Releasers(ops)) +
        (if Releases(op) then multiset{op.thread} else multiset{})
    ensures |Releasers(ops + [op])| == |Releasers(ops)| + (if Releases(op) then 1 else 0)
  {
    assert (ops + [op])[..|ops|] == ops;
  }

  lemma {:induction false} ReleasersWereGranted(ops: seq<MonitorOp>)
    requires Disciplined(ops)
    ensures multiset(Releasers(ops)) <= multiset(Granted(ops)) && |Releasers(ops)| == Unlocks(ops)
  {
    if ops != [] {
      hide Granted, Locks, Unlocks, Releasers;
      var n := |ops| - 1;
      var init, op := ops[..n], ops[n];
      assert Releases(op) ==> op.thread in Holders(init);
      DisciplinedPrefix(ops, n);
      ReleasersWereGranted(init);
      assert ops == init + [op];
      OneMore(init, op);
      GrantedGrows(init, op);
      ReleasersMore(init, op);
      if Releases(op) {
        StillIncluded(multiset(Releasers(init)), multiset(Granted(init)), multiset(Granted(ops)), op.thread);
      }
    } else {
      assert Releasers(ops) == [];
    }
  }

  lemma StillIncluded(r: multiset<Thread>, g: multiset<Thread>, g': multiset<Thread>, t: Thread)
    requires r <= g <= g' && t in g - r
    ensures r + multiset{t} <= g'
  {
    forall u ensures (r + multiset{t})[u] <= g'[u] {
    }
  }

  lemma GrantedGrows(ops: seq<MonitorOp>, op: MonitorOp)
    ensures multiset(Granted(ops)) <= multiset(Granted(ops + [op]))
  {
    OneMore(ops, op);
    var a, b := Granted(ops), Granted(ops + [op]);
    assert b == a + b[|a|..];
  }

  /** Mutual exclusion: while only holders release, there is one holder when more locks than releases
      were issued, and none otherwise. */
  lemma MutualExclusion(ops: seq<MonitorOp>)
    requires NeverOverUnlocked(ops) && Disciplined(ops)
    ensures |Holders(ops)| == if Unlocks(ops) < |Locks(ops)| then 1 else 0
  {
    ReleasersWereGranted(ops);
    CoveredSoFar(ops);
    var g, r := multiset(Granted(ops)), multiset(Releasers(ops));
    assert g * r == r;
  }

  lemma {:induction false} CoveredSoFar(ops: seq<MonitorOp>)
    requires NeverOverUnlocked(ops)
    ensures Unlocks(ops) <= |Locks(ops)|
  {
    if ops != [] {
      var n := |ops| - 1;
      assert ops == ops[..n] + [ops[n]];
      OneMore(ops[..n], ops[n]);
      CoveredSoFar(ops[..n]);
    }
  }

  /** Every history of calls, up to the source's panic: the panic comes exactly at a release that is
      not covered by a lock issued before it; otherwise the mutex is granted in the order in which it
      was asked for, once more than it was released, an unlocked mutex has no waiters, condition
      waiters are woken in the order in which they began to wait and all others are still queued,
      and if every release comes from a holder there is exactly one holder while it is locked. */
  method RunMonitor(ops: seq<MonitorOp>) returns (ok: bool, monitor: Monitor)
    ensures ok <==> NeverOverUnlocked(ops)
    ensures ok ==> monitor.granted == Granted(ops) && monitor.granted + monitor.mutex.waitQueue == Locks(ops)
    ensures ok ==> (monitor.mutex.locked <==> Unlocks(ops) < |Locks(ops)|)
    ensures ok ==> |monitor.woken| == Heard(ops) && monitor.woken + monitor.condvar.waitQueue == Waits(ops)
    ensures ok && !monitor.mutex.locked ==> monitor.mutex.waitQueue == []
    ensures ok && Disciplined(ops) ==> |Holders(ops)| == if monitor.mutex.locked then 1 else 0
  {
    hide Holders, Disciplined, Releasers, Waits, Signals, Heard;
    monitor := new Monitor();
    for i := 0 to |ops|
      invariant fresh(monitor) && fresh(monitor.mutex) && fresh(monitor.condvar)
      invariant monitor.Valid(ops[..i])
    {
      assert ops[..i + 1] == ops[..i] + [ops[i]];
      ok := monitor.Step(ops[i], ops[..i]);
      if !ok {
        return;
      }
    }
    assert ops[..|ops|] == ops;
    ok := true;
    if Disciplined(ops) {
      MutualExclusion(ops);
    }
  }

  /** No wake-up is lost: a wait releases the mutex and queues the caller in one step, so whoever
      waits at the end of `before` has been woken once as many signals have followed as threads were
      queued then, whatever else happens in between. */
  lemma {:induction false} NoLostWakeup(before: seq<MonitorOp>, after: seq<MonitorOp>)
    ensures Waits(before) <= Waits(before + after)
    ensures Heard(before + after) >= Min(|Waits(before)|, Heard(before) + Signals(after))
    decreases |after|
  {
    if after == [] {
      assert before + after == before;
    } else {
      var init := after[..|after| - 1];
      NoLostWakeup(before, init);
      assert (before + after)[..|before + after| - 1] == before + init;
    }
  }
}
