/** What every history of kernel steps keeps (os/src/sync, os/src/timer.rs). */
module TaskLaws {
  import opened Basics
  import opened Sync
  import opened TaskSteps

  // The laws of histories. Events are told from the calls, not from what the calls do.

  datatype Event = Upped(q: QueueId) | Downed(q: QueueId) | Asked(q: QueueId) | GaveBack(q: QueueId)
    | Queued(q: QueueId) | Picked(q: QueueId) | Ended(pid: nat)

  /** The running thread calls `step`, on an object of its own process. */
  predicate Calls(w: World, step: Step, pid: nat, call: Step) {
    step == call && Caller(w) == Some(pid)
  }

  /** A lock call on mutex `q`, by name or on the way out of a condition wait. */
  predicate Locks(w: World, step: Step, q: QueueId) {
    && q in w.locked && q.kind == OfMutex
    && (|| Calls(w, step, q.pid, LockMutex(q.id))
        || (step == Resume && w.current.Some? && w.current.value in w.tcb && w.tcb[w.current.value].relock == Some(q)))
  }

  /** A release of the locked mutex `q`, by name or on the way into a condition wait. */
  predicate Unlocks(w: World, step: Step, q: QueueId) {
    && q in w.locked && w.locked[q] && q.kind == OfMutex
    && (|| Calls(w, step, q.pid, UnlockMutex(q.id))
        || (&& step.WaitCondvar? && Calls(w, step, q.pid, WaitCondvar(step.id, q.id))
            && QueueId(q.pid, OfCondvar, step.id) in w.queues))
  }

  predicate Ups(w: World, step: Step, q: QueueId) {
    q.kind == OfSemaphore && q in w.counts && Calls(w, step, q.pid, UpSemaphore(q.id))
  }

  predicate Downs(w: World, step: Step, q: QueueId) {
    q.kind == OfSemaphore && q in w.counts && Calls(w, step, q.pid, DownSemaphore(q.id))
  }

  predicate Happens(w: World, step: Step, e: Event) {
    match e
    case Upped(q) => Ups(w, step, q)
    case Downed(q) => Downs(w, step, q)
    case Asked(q) => Locks(w, step, q)
    case GaveBack(q) => Unlocks(w, step, q)
    case Queued(q) =>
      || (Locks(w, step, q) && w.locked[q])
      || (Downs(w, step, q) && w.counts[q] <= 0)
      || (&& step.WaitCondvar? && q.kind == OfCondvar && Calls(w, step, q.pid, WaitCondvar(q.id, step.mutex))
          && q in w.queues && Unlocks(w, step, QueueId(q.pid, OfMutex, step.mutex)))
    case Picked(q) =>
      && Waiting(w, q) != []
      && (|| Unlocks(w, step, q) || Ups(w, step, q)
          || (q.kind == OfCondvar && Calls(w, step, q.pid, SignalCondvar(q.id))))
    case Ended(pid) => step.ExitThread? && Caller(w) == Some(pid) && w.tcb[w.current.value].tid == 0
  }

  /** How often an event happened in the first `n` steps. */
  function Times(steps: seq<Step>, worlds: seq<World>, e: Event, n: nat): nat
    requires n <= |steps| < |worlds|
  {
    if n == 0 then 0
    else Times(steps, worlds, e, n - 1) + (if Happens(worlds[n - 1], steps[n - 1], e) then 1 else 0)
  }

  /** The threads that joined queue `q` in the first `n` steps, in order. */
  function Arrivals(steps: seq<Step>, worlds: seq<World>, q: QueueId, n: nat): seq<Thread>
    requires n <= |steps| < |worlds|
  {
    if n == 0 then []
    else
      var w := worlds[n - 1];
      Arrivals(steps, worlds, q, n - 1) +
      (if Happens(w, steps[n - 1], Queued(q)) && w.current.Some? then [w.current.value] else [])
  }

  /** Only the calls on mutexes, semaphores and condition variables concern these. */
  lemma OtherSteps(w: World, step: Step, v: World)
    requires Enabled(w, step) && Effect(w, step, v) && !IsSync(step) && step != Resume
    ensures v.queues == w.queues && v.counts == w.counts && v.locked == w.locked
  {
    hide Fired, OthersTimed, Keep, Awake, SetStatus, Members, CallEnabled;
    match step
    case ClockTick(now) => var woken :| Ticked(w, now, v, woken);
    case _ =>
  }

  /** What a step does to one object: its count, its lock, its queue and whom it makes ready. */
  ghost predicate Moves(w: World, step: Step, v: World, q: QueueId) {
    && (q in w.counts ==>
          && q in v.counts
          && v.counts[q] == w.counts[q] + (if Ups(w, step, q) then 1 else 0) - (if Downs(w, step, q) then 1 else 0))
    && (q in w.locked ==>
          && q in v.locked
          && (v.locked[q] <==> Locks(w, step, q) || (w.locked[q] && !(Unlocks(w, step, q) && Waiting(w, q) == []))))
    && (Happens(w, step, Queued(q)) ==> w.current.Some? && !Happens(w, step, Picked(q)))
    && Waiting(v, q) == (if Happens(w, step, Queued(q)) then Waiting(w, q) + [w.current.value]
                         else if Happens(w, step, Picked(q)) then Waiting(w, q)[1..] else Waiting(w, q))
    && (Happens(w, step, Picked(q)) ==> v.ready == w.ready + [Waiting(w, q)[0]])
  }

  lemma PrimsAt(w: World, q: QueueId)
    requires PrimsOk(w.queues, w.counts, w.locked)
    ensures q in w.counts ==> q.kind == OfSemaphore && q in w.queues && (w.counts[q] < 0 <==> Waiting(w, q) != [])
    ensures q in w.locked ==> q.kind == OfMutex && q in w.queues && (!w.locked[q] ==> Waiting(w, q) == [])
  {
  }

  lemma BlockAt(w: World, b: QueueId, q: QueueId)
    requires w.current.Some?
    ensures Waiting(Block(w, b), q) == if q == b then Waiting(w, q) + [w.current.value] else Waiting(w, q)
    ensures Block(w, b).counts == w.counts && Block(w, b).locked == w.locked && Block(w, b).ready == w.ready
  {
  }

  lemma WakeAt(w: World, b: QueueId, q: QueueId)
    ensures Waiting(Wake(w, b), q) == if q == b && Waiting(w, q) != [] then Waiting(w, q)[1..] else Waiting(w, q)
    ensures Wake(w, b).counts == w.counts && Wake(w, b).locked == w.locked
    ensures Wake(w, b).ready == if Waiting(w, b) == [] then w.ready else w.ready + [Waiting(w, b)[0]]
    ensures Wake(w, b).current == w.current
  {
  }

  lemma CreateMoves(w: World, step: Step, q: QueueId)
    requires step.CreateObject? && Enabled(w, step) && PrimsOk(w.queues, w.counts, w.locked)
    ensures Moves(w, step, SyncEffect(w, step), q)
  {
    hide PrimsOk;
    PrimsAt(w, q);
  }

  lemma LockMoves(w: World, step: Step, q: QueueId)
    requires step.LockMutex? && Enabled(w, step) && PrimsOk(w.queues, w.counts, w.locked)
    ensures Moves(w, step, SyncEffect(w, step), q)
  {
    hide PrimsOk, Block, Waiting;
    PrimsAt(w, q);
    BlockAt(w, QueueId(Caller(w).value, OfMutex, step.id), q);
    SameQueues(w, SyncEffect(w, step), q);
  }

  lemma SameQueues(w: World, v: World, q: QueueId)
    ensures v.queues == w.queues ==> Waiting(v, q) == Waiting(w, q)
  {
  }

  lemma UnlockMoves(w: World, step: Step, q: QueueId)
    requires step.UnlockMutex? && Enabled(w, step) && PrimsOk(w.queues, w.counts, w.locked)
    ensures Moves(w, step, SyncEffect(w, step), q)
  {
    hide PrimsOk, Wake, Waiting;
    PrimsAt(w, q);
    WakeAt(w, QueueId(Caller(w).value, OfMutex, step.id), q);
    SameQueues(w, SyncEffect(w, step), q);
  }

  lemma UpMoves(w: World, step: Step, q: QueueId)
    requires step.UpSemaphore? && Enabled(w, step) && PrimsOk(w.queues, w.counts, w.locked)
    ensures Moves(w, step, SyncEffect(w, step), q)
  {
    hide PrimsOk, Wake, Waiting;
    var b := QueueId(Caller(w).value, OfSemaphore, step.id);
    var u := w.(counts := w.counts[b := w.counts[b] + 1]);
    PrimsAt(w, q);
    PrimsAt(w, b);
    SameQueues(w, u, q);
    SameQueues(w, u, b);
    WakeAt(u, b, q);
  }

  lemma DownMoves(w: World, step: Step, q: QueueId)
    requires step.DownSemaphore? && Enabled(w, step) && PrimsOk(w.queues, w.counts, w.locked)
    ensures Moves(w, step, SyncEffect(w, step), q)
  {
    hide PrimsOk, Block, Waiting;
    var b := QueueId(Caller(w).value, OfSemaphore, step.id);
    var u := w.(counts := w.counts[b := w.counts[b] - 1]);
    PrimsAt(w, q);
    SameQueues(w, u, q);
    BlockAt(u, b, q);
  }

  lemma SignalMoves(w: World, step: Step, q: QueueId)
    requires step.SignalCondvar? && Enabled(w, step) && PrimsOk(w.queues, w.counts, w.locked)
    ensures Moves(w, step, SyncEffect(w, step), q)
  {
    hide PrimsOk, Wake, Waiting;
    PrimsAt(w, q);
    WakeAt(w, QueueId(Caller(w).value, OfCondvar, step.id), q);
  }

  lemma WaitMoves(w: World, step: Step, q: QueueId)
    requires step.WaitCondvar? && Enabled(w, step) && PrimsOk(w.queues, w.counts, w.locked)
    ensures Moves(w, step, SyncEffect(w, step), q)
  {
    hide PrimsOk, Wake, Block, Waiting;
    var m, b := QueueId(Caller(w).value, OfMutex, step.mutex), QueueId(Caller(w).value, OfCondvar, step.id);
    PrimsAt(w, q);
    WakeAt(w, m, q);
    ReleaseKeepsThreads(w, m);
    var u := Remember(Release(w, m), Some(m));
    SameQueues(Release(w, m), u, q);
    SameQueues(w, Release(w, m), q);
    BlockAt(u, b, q);
  }

  lemma ReleaseKeepsThreads(w: World, m: QueueId)
    ensures Release(w, m).tcb.Keys == w.tcb.Keys && Release(w, m).current == w.current
  {
  }

  lemma ResumeMoves(w: World, v: World, q: QueueId)
    requires Enabled(w, Resume) && Effect(w, Resume, v) && PrimsOk(w.queues, w.counts, w.locked)
    ensures Moves(w, Resume, v, q)
  {
    hide PrimsOk, Block, Waiting;
    PrimsAt(w, q);
    var b := w.tcb[w.current.value].relock.value;
    PrimsAt(w, b);
    var u := Remember(w, None);
    SameQueues(w, u, q);
    BlockAt(u, b, q);
    SameQueues(u, v, q);
  }

  lemma OtherMoves(w: World, step: Step, v: World, q: QueueId)
    requires v.queues == w.queues && v.counts == w.counts && v.locked == w.locked
    requires !Enabled(w, step) || (!IsSync(step) && step != Resume)
    ensures Moves(w, step, v, q)
  {
    if !Enabled(w, step) {
      DisabledSteps(w, step, q);
    }
  }

  lemma DisabledSteps(w: World, step: Step, q: QueueId)
    requires !Enabled(w, step)
    ensures !Ups(w, step, q) && !Downs(w, step, q) && !Locks(w, step, q) && !Unlocks(w, step, q)
    ensures !Happens(w, step, Queued(q)) && !Happens(w, step, Picked(q))
  {
  }

  lemma AllMoves(w: World, step: Step, v: World, q: QueueId)
    requires Next(w, step, v) && PrimsOk(w.queues, w.counts, w.locked)
    ensures Moves(w, step, v, q)
  {
    hide Moves, PrimsOk, CallEnabled, SyncEffect;
    if !Enabled(w, step) {
      OtherMoves(w, step, v, q);
    } else {
      match step
      case CreateObject(_, _, _) => CreateMoves(w, step, q);
      case LockMutex(_) => LockMoves(w, step, q);
      case UnlockMutex(_) => UnlockMoves(w, step, q);
      case UpSemaphore(_) => UpMoves(w, step, q);
      case DownSemaphore(_) => DownMoves(w, step, q);
      case SignalCondvar(_) => SignalMoves(w, step, q);
      case WaitCondvar(_, _) => WaitMoves(w, step, q);
      case Resume => ResumeMoves(w, v, q);
      case _ =>
        OtherSteps(w, step, v);
        OtherMoves(w, step, v, q);
    }
  }

  /** A new semaphore has the count asked for, a new mutex is not locked, and nobody waits for either. */
  lemma CreateLaw(w: World, kind: Kind, id: nat, count: nat, v: World)
    requires Caller(w).Some? && Next(w, CreateObject(kind, id, count), v)
    requires QueueId(Caller(w).value, kind, id) !in w.queues
    ensures
      var q := QueueId(Caller(w).value, kind, id);
      && q in v.queues && v.queues[q] == []
      && (kind == OfSemaphore ==> q in v.counts && v.counts[q] == count)
      && (kind == OfMutex ==> q in v.locked && !v.locked[q])
  {
  }

  // Semaphores.

  /** The count of a semaphore is what it was, plus the ups, minus the downs. */
  lemma {:induction false} SemaphoreLaw(steps: seq<Step>, worlds: seq<World>, q: QueueId, n: nat)
    requires History(steps, worlds) && q in worlds[0].counts && n <= |steps|
    ensures q in worlds[n].counts
    ensures worlds[n].counts[q] ==
            worlds[0].counts[q] + Times(steps, worlds, Upped(q), n) - Times(steps, worlds, Downed(q), n)
  {
    hide Next, PrimsOk, Ups, Downs, Locks, Unlocks;
    if n > 0 {
      SemaphoreLaw(steps, worlds, q, n - 1);
      AllMoves(worlds[n - 1], steps[n - 1], worlds[n], q);
    }
  }

  // Mutexes.

  /** The threads that hold the mutex or wait for it. */
  function Engaged(w: World, q: QueueId): nat
    requires q in w.locked
  {
    (if w.locked[q] then 1 else 0) + |Waiting(w, q)|
  }

  lemma EngagedStep(w: World, step: Step, v: World, q: QueueId)
    requires Moves(w, step, v, q) && q in w.locked && q.kind == OfMutex
    ensures q in v.locked
    ensures Engaged(v, q) ==
            Engaged(w, q) + (if Locks(w, step, q) then 1 else 0) - (if Unlocks(w, step, q) then 1 else 0)
  {
    hide Waiting;
  }

  /** Every lock call adds one thread that holds the mutex or waits, every release takes one away; so
      the mutex is locked if and only if there were more of the former. */
  lemma {:induction false} MutexLaw(steps: seq<Step>, worlds: seq<World>, q: QueueId, n: nat)
    requires History(steps, worlds) && q in worlds[0].locked && n <= |steps|
    ensures q in worlds[n].locked
    ensures Engaged(worlds[n], q) ==
            Engaged(worlds[0], q) + Times(steps, worlds, Asked(q), n) - Times(steps, worlds, GaveBack(q), n)
    ensures worlds[n].locked[q] <==>
            Engaged(worlds[0], q) + Times(steps, worlds, Asked(q), n) > Times(steps, worlds, GaveBack(q), n)
  {
    hide Next, PrimsOk, Moves, Waiting, Locks, Unlocks;
    if n > 0 {
      MutexLaw(steps, worlds, q, n - 1);
      AllMoves(worlds[n - 1], steps[n - 1], worlds[n], q);
      PrimsAt(worlds[n - 1], q);
      EngagedStep(worlds[n - 1], steps[n - 1], worlds[n], q);
    }
    PrimsAt(worlds[n], q);
  }

  // Wait queues.

  /** First come, first served: a wait queue holds those who waited at the start and those who came
      since, in order, without as many from the front as were served. */
  lemma {:induction false} QueueLaw(steps: seq<Step>, worlds: seq<World>, q: QueueId, n: nat)
    requires History(steps, worlds) && n <= |steps|
    ensures
      var all := Waiting(worlds[0], q) + Arrivals(steps, worlds, q, n);
      var served := Times(steps, worlds, Picked(q), n);
      served <= |all| && Waiting(worlds[n], q) == all[served..]
  {
    hide Next, PrimsOk, Waiting, Locks, Unlocks, Ups, Downs;
    if n > 0 {
      QueueLaw(steps, worlds, q, n - 1);
      AllMoves(worlds[n - 1], steps[n - 1], worlds[n], q);
      var first := Waiting(worlds[0], q);
      var all, all' := first + Arrivals(steps, worlds, q, n - 1), first + Arrivals(steps, worlds, q, n);
      if Happens(worlds[n - 1], steps[n - 1], Queued(q)) {
        assert all' == all + [worlds[n - 1].current.value];
      } else {
        assert all' == all;
        assert Happens(worlds[n - 1], steps[n - 1], Picked(q)) ==> Waiting(worlds[n - 1], q) != [];
      }
    }
  }

  /** Whoever is served becomes ready: the thread that came `k`-th to the queue is at the back of the
      ready queue after the step that serves for the `k + 1`-st time. */
  lemma ServedInTurn(steps: seq<Step>, worlds: seq<World>, q: QueueId, i: nat)
    requires History(steps, worlds) && i < |steps| && Happens(worlds[i], steps[i], Picked(q))
    ensures
      var all := Waiting(worlds[0], q) + Arrivals(steps, worlds, q, i);
      var k := Times(steps, worlds, Picked(q), i);
      k < |all| && worlds[i + 1].ready == worlds[i].ready + [all[k]]
  {
    hide Next, PrimsOk, Locks, Unlocks, Ups, Downs;
    QueueLaw(steps, worlds, q, i);
    AllMoves(worlds[i], steps[i], worlds[i + 1], q);
  }

  // Timers.

  /** The running thread sets timer `x`. */
  predicate Sleeps(w: World, step: Step, x: Timer) {
    step.SleepFor? && Caller(w).Some? && x == Timer(step.now + step.ms, w.current.value)
  }

  /** A clock tick at or after the expiry of `x`. */
  predicate Expires(w: World, step: Step, x: Timer) {
    step.ClockTick? && Caller(w).Some? && x.expireMs <= step.now
  }

  /** The main thread of the process of `x.task` exits. */
  predicate Cancels(w: World, step: Step, x: Timer) {
    x.task in w.tcb && Happens(w, step, Ended(w.tcb[x.task].pid))
  }

  lemma TimerStep(w: World, step: Step, v: World, x: Timer)
    requires Next(w, step, v)
    ensures x in v.timers <==> Sleeps(w, step, x) || (x in w.timers && !Expires(w, step, x) && !Cancels(w, step, x))
    ensures x in w.timers && Expires(w, step, x) ==> x.task in v.ready
  {
    hide Ticked, Exited, FreeTid;
    if step.ClockTick? {
      if Enabled(w, step) {
        var woken :| Ticked(w, step.now, v, woken);
        TickTimers(w, step.now, v, woken, x);
      }
    } else if step.ExitThread? {
      if Enabled(w, step) {
        ExitTimers(w, step.code, v, x);
      }
    } else if !step.SleepFor? {
      hide Next;
      PlainTimers(w, step, v);
    }
  }

  lemma PlainTimers(w: World, step: Step, v: World)
    requires Next(w, step, v) && !step.ClockTick? && !step.ExitThread? && !step.SleepFor?
    ensures v.timers == w.timers
  {
    hide Awake, SetStatus, SyncEffect, Ticked, Exited, FreeTid, TaskSet, CallEnabled;
    if Enabled(w, step) && (IsSync(step) || step == Resume) {
      SyncTimers(w, step, v);
    }
  }

  lemma TickTimers(w: World, now: nat, v: World, woken: seq<Timer>, x: Timer)
    requires w.current.Some? && Ticked(w, now, v, woken)
    ensures x in v.timers <==> x in w.timers && x.expireMs > now
    ensures x in w.timers && x.expireMs <= now ==> x.task in v.ready
  {
    hide Fired, Awake, SetStatus;
    FiredAt(w.timers, woken, v.timers, now, x);
  }

  lemma ExitTimers(w: World, code: int, v: World, x: Timer)
    requires Caller(w).Some? && Exited(w, code, v)
    ensures x in v.timers <==> x in w.timers && !Cancels(w, ExitThread(code), x)
  {
    hide OthersTimed, Keep;
    if w.tcb[w.current.value].tid == 0 {
      TimedAt(w.timers, v.timers, Members(w.tcb, Caller(w).value), x);
    }
  }

  lemma TimedAt(timers: seq<Timer>, timers': seq<Timer>, gone: set<Thread>, x: Timer)
    requires OthersTimed(timers, timers', gone)
    ensures x in timers' <==> x in timers && x.task !in gone
  {
    assert x in timers' <==> multiset(timers')[x] > 0;
    assert x in timers <==> multiset(timers)[x] > 0;
  }

  lemma FiredAt(all: seq<Timer>, woken: seq<Timer>, left: seq<Timer>, now: nat, x: Timer)
    requires Fired(all, woken, left, now) && forall y | y in left :: y.expireMs > now
    ensures x in left <==> x in all && x.expireMs > now
    ensures x in all && x.expireMs <= now ==> x.task in Sleepers(woken)
  {
    assert x in all <==> x in multiset(all);
    assert x in woken <==> x in multiset(woken);
    assert x in left <==> x in multiset(left);
    if x in woken {
      var i :| 0 <= i < |woken| && woken[i] == x;
      assert Sleepers(woken)[i] == x.task;
    }
  }

  /** The same threads, but for status and where they go on. */
  ghost predicate SameIds(tcb: map<Thread, Tcb>, tcb': map<Thread, Tcb>) {
    && tcb'.Keys == tcb.Keys
    && forall t | t in tcb :: tcb'[t] == tcb[t].(status := tcb'[t].status, relock := tcb'[t].relock)
  }

  lemma SetStatusIds(tcb: map<Thread, Tcb>, t: Thread, status: Status)
    ensures SameIds(tcb, SetStatus(tcb, t, status))
  {
  }

  lemma SameIdsTrans(a: map<Thread, Tcb>, b: map<Thread, Tcb>, c: map<Thread, Tcb>)
    requires SameIds(a, b) && SameIds(b, c)
    ensures SameIds(a, c)
  {
  }

  lemma BlockSame(w: World, q: QueueId)
    requires w.current.Some?
    ensures SameIds(w.tcb, Block(w, q).tcb) && Block(w, q).timers == w.timers && Block(w, q).procs == w.procs
  {
    hide SetStatus, SameIds;
    SetStatusIds(w.tcb, w.current.value, Blocked);
  }

  lemma SelfIds(tcb: map<Thread, Tcb>)
    ensures SameIds(tcb, tcb)
  {
  }

  lemma WakeSame(w: World, q: QueueId)
    ensures SameIds(w.tcb, Wake(w, q).tcb) && Wake(w, q).timers == w.timers && Wake(w, q).procs == w.procs
  {
    hide SetStatus, SameIds;
    SelfIds(w.tcb);
    if Waiting(w, q) != [] {
      SetStatusIds(w.tcb, Waiting(w, q)[0], Ready);
    }
  }

  lemma RememberSame(w: World, relock: Option<QueueId>)
    requires w.current.Some? && w.current.value in w.tcb
    ensures SameIds(w.tcb, Remember(w, relock).tcb)
    ensures Remember(w, relock).timers == w.timers && Remember(w, relock).procs == w.procs
  {
  }

  lemma SyncTimers(w: World, step: Step, v: World)
    requires Enabled(w, step) && Effect(w, step, v) && (IsSync(step) || step == Resume)
    ensures v.timers == w.timers && v.procs == w.procs && SameIds(w.tcb, v.tcb)
  {
    hide Block, Wake, Await, Post, Take, SameIds, Ticked, Exited, SetStatus, FreeTid, TaskSet;
    SelfIds(w.tcb);
    match step
    case LockMutex(id) => BlockSame(w, QueueId(Caller(w).value, OfMutex, id));
    case UnlockMutex(id) => WakeSame(w, QueueId(Caller(w).value, OfMutex, id));
    case UpSemaphore(id) => SemaphoreSame(w, QueueId(Caller(w).value, OfSemaphore, id));
    case DownSemaphore(id) => SemaphoreSame(w, QueueId(Caller(w).value, OfSemaphore, id));
    case SignalCondvar(id) => WakeSame(w, QueueId(Caller(w).value, OfCondvar, id));
    case WaitCondvar(id, mutex) => WaitSame(w, QueueId(Caller(w).value, OfCondvar, id),
        QueueId(Caller(w).value, OfMutex, mutex));
    case Resume => ResumeSame(w);
    case _ =>
  }

  lemma SemaphoreSame(w: World, q: QueueId)
    requires q in w.counts && w.current.Some?
    ensures Post(w, q).timers == w.timers && Post(w, q).procs == w.procs && SameIds(w.tcb, Post(w, q).tcb)
    ensures Take(w, q).timers == w.timers && Take(w, q).procs == w.procs && SameIds(w.tcb, Take(w, q).tcb)
  {
    hide Block, Wake, SameIds;
    SelfIds(w.tcb);
    WakeSame(w.(counts := w.counts[q := w.counts[q] + 1]), q);
    BlockSame(w.(counts := w.counts[q := w.counts[q] - 1]), q);
  }

  lemma WaitSame(w: World, q: QueueId, m: QueueId)
    requires w.current.Some? && w.current.value in w.tcb
    ensures Release(w, m).current == w.current && w.current.value in Release(w, m).tcb
    ensures Remember(Release(w, m), Some(m)).current == w.current
    ensures
      var v := Await(w, q, m);
      v.timers == w.timers && v.procs == w.procs && SameIds(w.tcb, v.tcb)
  {
    hide SameIds, Wake, Block;
    SelfIds(w.tcb);
    ReleaseKeepsThreads(w, m);
    var u := Release(w, m);
    WakeSame(w, m);
    RememberSame(u, Some(m));
    BlockSame(Remember(u, Some(m)), q);
    SameIdsTrans(w.tcb, u.tcb, Remember(u, Some(m)).tcb);
    SameIdsTrans(w.tcb, Remember(u, Some(m)).tcb, Block(Remember(u, Some(m)), q).tcb);
  }

  lemma ResumeSame(w: World)
    requires Enabled(w, Resume)
    ensures
      var v := Acquire(Remember(w, None), w.tcb[w.current.value].relock.value);
      v.timers == w.timers && v.procs == w.procs && SameIds(w.tcb, v.tcb)
  {
    hide SameIds, Block;
    var q := w.tcb[w.current.value].relock.value;
    RememberSame(w, None);
    BlockSame(Remember(w, None), q);
    SameIdsTrans(w.tcb, Remember(w, None).tcb, Block(Remember(w, None), q).tcb);
  }

  /** A sleeper stays in the timers, with its expiry, until a tick at or after that time or the end of
      its process; such a tick makes it ready. */
  lemma {:induction false} SleepLaw(steps: seq<Step>, worlds: seq<World>, x: Timer, i: nat, n: nat)
    requires History(steps, worlds) && i < n <= |steps| && Sleeps(worlds[i], steps[i], x)
    requires forall j | i < j < n :: !Expires(worlds[j], steps[j], x) && !Cancels(worlds[j], steps[j], x)
    ensures x in worlds[n].timers
    ensures n < |steps| && Expires(worlds[n], steps[n], x) ==>
              x !in worlds[n + 1].timers && x.task in worlds[n + 1].ready
    decreases n
  {
    hide Next, PrimsOk, Cancels;
    TimerStep(worlds[n - 1], steps[n - 1], worlds[n], x);
    if n - 1 > i {
      SleepLaw(steps, worlds, x, i, n - 1);
    }
    if n < |steps| {
      TimerStep(worlds[n], steps[n], worlds[n + 1], x);
    }
  }

  // Threads and processes.

  /** Thread `t` exits. */
  predicate Exits(w: World, step: Step, t: Thread) {
    step.ExitThread? && Caller(w).Some? && w.current == Some(t)
  }

  /** Thread `t` is started, under this number of this process. */
  predicate Starts(w: World, step: Step, t: Thread, pid: nat, tid: nat) {
    && t !in w.tcb
    && (|| (&& step == StartThread(t, tid) && Caller(w) == Some(pid) && pid in w.procs
            && forall u | u in w.tcb && w.tcb[u].pid == pid && w.tcb[u].exitCode.None? :: w.tcb[u].tid != tid)
        || (step == StartProcess(pid, t) && tid == 0 && pid !in w.procs))
  }

  lemma TickSame(w: World, now: nat, v: World)
    requires Enabled(w, ClockTick(now)) && Effect(w, ClockTick(now), v)
    ensures SameIds(w.tcb, v.tcb) && v.procs == w.procs
  {
    hide Fired;
    var woken :| Ticked(w, now, v, woken);
    var tcb := Awake(w.tcb, Sleepers(woken));
    hide SetStatus;
    SetStatusIds(tcb, w.current.value, Ready);
  }

  /** Steps other than the start and the exit of a thread. */
  lemma PlainSame(w: World, step: Step, v: World)
    requires Next(w, step, v) && !step.StartThread? && !step.StartProcess? && !step.ExitThread?
    ensures SameIds(w.tcb, v.tcb)
  {
    hide SameIds, Fired, OthersTimed, Keep, Awake, SetStatus, SyncEffect, FreeTid;
    SelfIds(w.tcb);
    if Enabled(w, step) {
      match step
      case RunNext => if w.ready != [] { SetStatusIds(w.tcb, w.ready[0], Running); }
      case Yield => SetStatusIds(w.tcb, w.current.value, Ready);
      case ClockTick(now) => TickSame(w, now, v);
      case SleepFor(_, _) => SetStatusIds(w.tcb, w.current.value, Blocked);
      case JoinThread(_) =>
      case _ => SyncTimers(w, step, v);
    }
  }

  lemma StartStep(w: World, step: Step, v: World, t: Thread)
    requires Next(w, step, v) && (step.StartThread? || step.StartProcess?)
    ensures t in v.tcb <==> t in w.tcb || exists pid, tid :: Starts(w, step, t, pid, tid)
    ensures forall pid, tid | Starts(w, step, t, pid, tid) ::
              v.tcb[t] == Tcb(pid, tid, Ready, None, None) && t in v.ready
    ensures t in w.tcb ==> v.tcb[t] == w.tcb[t]
  {
    if Enabled(w, step) {
      match step
      case StartThread(task, tid) => assert Starts(w, step, task, Caller(w).value, tid);
      case StartProcess(pid, task) => assert Starts(w, step, task, pid, 0);
    }
  }

  lemma ThreadStep(w: World, step: Step, v: World, t: Thread)
    requires Next(w, step, v)
    ensures t in v.tcb <==> t in w.tcb || exists pid, tid :: Starts(w, step, t, pid, tid)
    ensures forall pid, tid | Starts(w, step, t, pid, tid) ::
              v.tcb[t] == Tcb(pid, tid, Ready, None, None) && t in v.ready
    ensures t in w.tcb ==> v.tcb[t].pid == w.tcb[t].pid && v.tcb[t].tid == w.tcb[t].tid
    ensures t in w.tcb ==>
              v.tcb[t].exitCode == if Exits(w, step, t) then Some(step.code) else w.tcb[t].exitCode
  {
    if step.StartThread? || step.StartProcess? {
      hide Next, Starts;
      StartStep(w, step, v, t);
    } else if step.ExitThread? {
      hide OthersTimed, Keep;
    } else {
      hide Next;
      PlainSame(w, step, v);
    }
  }

  /** The code with which a thread has exited, if it has. */
  function ExitedWith(steps: seq<Step>, worlds: seq<World>, t: Thread, n: nat): Option<int>
    requires n <= |steps| < |worlds| && t in worlds[0].tcb
  {
    if n == 0 then worlds[0].tcb[t].exitCode
    else if Exits(worlds[n - 1], steps[n - 1], t) then Some(steps[n - 1].code)
    else ExitedWith(steps, worlds, t, n - 1)
  }

  /** A thread keeps its process and its number, and its exit code is that of its exit. */
  lemma {:induction false} ThreadLaw(steps: seq<Step>, worlds: seq<World>, t: Thread, n: nat)
    requires History(steps, worlds) && n <= |steps| && t in worlds[0].tcb
    ensures t in worlds[n].tcb && worlds[n].tcb[t].pid == worlds[0].tcb[t].pid
    ensures worlds[n].tcb[t].tid == worlds[0].tcb[t].tid
    ensures worlds[n].tcb[t].exitCode == ExitedWith(steps, worlds, t, n)
  {
    hide Next, PrimsOk, Exits, Starts;
    if n > 0 {
      ThreadLaw(steps, worlds, t, n - 1);
      ThreadStep(worlds[n - 1], steps[n - 1], worlds[n], t);
    }
  }

  lemma ProcessStep(w: World, step: Step, v: World, pid: nat)
    requires Next(w, step, v) && pid in w.procs
    ensures pid in v.procs && (v.procs[pid].zombie <==> w.procs[pid].zombie || Happens(w, step, Ended(pid)))
  {
    if step.ExitThread? {
      hide OthersTimed, Keep;
    } else {
      hide Next;
      PlainProcess(w, step, v, pid);
    }
  }

  lemma PlainProcess(w: World, step: Step, v: World, pid: nat)
    requires Next(w, step, v) && pid in w.procs && !step.ExitThread?
    ensures pid in v.procs && v.procs[pid].zombie == w.procs[pid].zombie
  {
    hide Awake, SetStatus, SyncEffect, Ticked, FreeTid, TaskSet;
    if Enabled(w, step) {
      match step
      case ClockTick(now) => TickSame(w, now, v);
      case _ =>
        if IsSync(step) || step == Resume {
          SyncTimers(w, step, v);
        }
    }
  }

  /** A process is dead if and only if it was or its main thread has exited. */
  lemma {:induction false} ProcessLaw(steps: seq<Step>, worlds: seq<World>, pid: nat, n: nat)
    requires History(steps, worlds) && n <= |steps| && pid in worlds[0].procs
    ensures pid in worlds[n].procs
    ensures worlds[n].procs[pid].zombie <==> worlds[0].procs[pid].zombie || Times(steps, worlds, Ended(pid), n) > 0
  {
    hide Next, PrimsOk, Happens;
    if n > 0 {
      ProcessLaw(steps, worlds, pid, n - 1);
      ProcessStep(worlds[n - 1], steps[n - 1], worlds[n], pid);
    }
  }

  /** A call of `sys_waittid` gives its result. */
  ghost predicate ResultOk(w: World, step: Step, r: int) {
    step.JoinThread? && Enabled(w, step) ==> r == JoinResult(w, step.tid)
  }

  lemma HistoryMore(steps: seq<Step>, i: nat, worlds: seq<World>, w: World)
    requires i < |steps| && History(steps[..i], worlds) && Next(worlds[i], steps[i], w)
    requires PrimsOk(w.queues, w.counts, w.locked)
    ensures History(steps[..i + 1], worlds + [w])
  {
    hide Next, PrimsOk;
    var steps', worlds' := steps[..i + 1], worlds + [w];
    forall j | 0 <= j < |steps'| ensures Next(worlds'[j], steps'[j], worlds'[j + 1]) {
      if j < i {
        assert Next(worlds[j], steps[..i][j], worlds[j + 1]);
      }
    }
    forall j | 0 <= j <= |steps'| ensures PrimsOk(worlds'[j].queues, worlds'[j].counts, worlds'[j].locked) {
      if j <= i {
        assert worlds'[j] == worlds[j];
      }
    }
  }

  /** Timer `x`, set in step `i`, has since fired or its process has ended. */
  ghost predicate Over(steps: seq<Step>, worlds: seq<World>, x: Timer, i: nat)
    requires |steps| < |worlds|
  {
    exists j | i < j < |steps| :: Expires(worlds[j], steps[j], x) || Cancels(worlds[j], steps[j], x)
  }

  /** The laws at the end of a history. */
  lemma RunLaws(steps: seq<Step>, worlds: seq<World>)
    requires History(steps, worlds)
    ensures
      var n := |steps|;
      && (forall q | q in worlds[0].counts ::
            && q in worlds[n].counts
            && worlds[n].counts[q] ==
                 worlds[0].counts[q] + Times(steps, worlds, Upped(q), n) - Times(steps, worlds, Downed(q), n))
      && (forall q | q in worlds[0].locked ::
            && q in worlds[n].locked
            && (worlds[n].locked[q] <==>
                  Engaged(worlds[0], q) + Times(steps, worlds, Asked(q), n) > Times(steps, worlds, GaveBack(q), n)))
      && (forall x, i: nat | i < n && Sleeps(worlds[i], steps[i], x) ::
            x in worlds[n].timers || Over(steps, worlds, x, i))
  {
    hide Next, PrimsOk, Happens, Sleeps, Expires, Cancels, Times, Engaged;
    var n := |steps|;
    forall q | q in worlds[0].counts
      ensures q in worlds[n].counts && worlds[n].counts[q] ==
                worlds[0].counts[q] + Times(steps, worlds, Upped(q), n) - Times(steps, worlds, Downed(q), n)
    {
      SemaphoreLaw(steps, worlds, q, n);
    }
    forall q | q in worlds[0].locked
      ensures q in worlds[n].locked && (worlds[n].locked[q] <==>
                Engaged(worlds[0], q) + Times(steps, worlds, Asked(q), n) > Times(steps, worlds, GaveBack(q), n))
    {
      MutexLaw(steps, worlds, q, n);
    }
    forall x, i: nat | i < n && Sleeps(worlds[i], steps[i], x) && !Over(steps, worlds, x, i)
      ensures x in worlds[n].timers
    {
      SleepLaw(steps, worlds, x, i, n);
    }
  }

  // The processor and the ready queue.

  /** The front of the ready queue gets the free processor. */
  lemma RunNextLaw(w: World, v: World)
    requires Next(w, RunNext, v) && w.current == None
    ensures w.ready == [] ==> v == w
    ensures w.ready != [] ==> v.current == Some(w.ready[0]) && v.ready == w.ready[1..]
    ensures w.ready != [] && w.ready[0] in w.tcb ==> v.tcb[w.ready[0]].status == Running
  {
  }

  /** A yielding thread goes to the back of the ready queue; so does one that is interrupted, behind all
      those whose time has come; a sleeping thread goes nowhere near it. */
  lemma GiveUpLaw(w: World, step: Step, v: World)
    requires Next(w, step, v) && Caller(w).Some? && (step == Yield || step.ClockTick? || step.SleepFor?)
    ensures v.current == None && w.ready <= v.ready
    ensures step == Yield ==> v.ready == w.ready + [w.current.value]
    ensures step.ClockTick? ==> |v.ready| > |w.ready| && v.ready[|v.ready| - 1] == w.current.value
    ensures step.ClockTick? ==> forall i | |w.ready| <= i < |v.ready| - 1 :: Due(w.timers, step.now, v.ready[i])
    ensures step.SleepFor? ==> v.ready == w.ready
  {
    hide Fired, Awake, SetStatus, Due;
    if step.ClockTick? {
      var woken: seq<Timer> :| Ticked(w, step.now, v, woken);
      forall i | |w.ready| <= i < |v.ready| - 1 ensures Due(w.timers, step.now, v.ready[i]) {
        WasSet(w.timers, woken, v.timers, step.now, i - |w.ready|);
      }
    }
  }

  /** A timer of the thread has expired. */
  ghost predicate Due(timers: seq<Timer>, now: nat, t: Thread) {
    exists x :: x in timers && x.expireMs <= now && x.task == t
  }

  lemma WasSet(all: seq<Timer>, woken: seq<Timer>, left: seq<Timer>, now: nat, i: nat)
    requires Fired(all, woken, left, now) && i < |woken|
    ensures Due(all, now, woken[i].task)
  {
    assert woken[i] in multiset(woken);
    assert woken[i] in multiset(all);
  }

  /** An exiting thread leaves the processor. A main thread takes the ready threads of its process along,
      and those of all other processes stay. */
  lemma ExitLaw(w: World, code: int, v: World)
    requires Next(w, ExitThread(code), v) && Caller(w).Some?
    ensures v.current == None && v.queues == w.queues
    ensures w.tcb[w.current.value].tid != 0 ==> v.ready == w.ready && v.timers == w.timers
    ensures w.tcb[w.current.value].tid == 0 ==> forall u ::
              multiset(v.ready)[u] ==
              if u in w.tcb && w.tcb[u].pid == Caller(w).value then 0 else multiset(w.ready)[u]
  {
    hide OthersTimed, Keep;
    KeepCount(w.ready, Members(w.tcb, Caller(w).value));
  }

  /** A condition wait remembers the mutex it must take again, and the thread asks for it as soon as it
      runs. */
  lemma RelockLaw(w: World, id: nat, mutex: nat, v: World)
    requires Caller(w).Some? && Next(w, WaitCondvar(id, mutex), v)
    requires QueueId(Caller(w).value, OfCondvar, id) in w.queues
    requires var m := QueueId(Caller(w).value, OfMutex, mutex); m in w.locked && w.locked[m]
    ensures var t := w.current.value;
            v.current == None && t in v.tcb && v.tcb[t].relock == Some(QueueId(Caller(w).value, OfMutex, mutex))
  {
    hide Waiting;
    ReleaseKeepsThreads(w, QueueId(Caller(w).value, OfMutex, mutex));
  }

  lemma ResumeLaw(w: World, v: World)
    requires w.current.Some? && w.current.value in w.tcb && w.tcb[w.current.value].relock.Some?
    requires w.tcb[w.current.value].relock.value in w.locked && Next(w, Resume, v)
    ensures w.current.value in v.tcb && v.tcb[w.current.value].relock == None
  {
    hide Waiting;
  }

  /** Waiting for a thread: -1 for the caller itself or an empty slot, -2 for a thread that has not
      exited, else the exit code, and then the slot is emptied; nothing else happens. */
  lemma JoinLaw(w: World, tid: nat, v: World, r: int)
    requires Caller(w).Some? && Caller(w).value in w.procs && tid < |w.procs[Caller(w).value].tasks|
    requires Next(w, JoinThread(tid), v) && ResultOk(w, JoinThread(tid), r)
    requires forall t | Some(t) in w.procs[Caller(w).value].tasks :: t in w.tcb
    ensures
      var pid := Caller(w).value;
      var tasks := w.procs[pid].tasks;
      if tid == w.tcb[w.current.value].tid || tasks[tid] == None then r == -1 && v == w
      else if w.tcb[tasks[tid].value].exitCode.None? then r == -2 && v == w
      else
        && w.tcb[tasks[tid].value].exitCode == Some(r) && v == w.(procs := v.procs)
        && v.procs == w.procs[pid := w.procs[pid].(tasks := tasks[tid := None])]
  {
    assert w.procs[Caller(w).value].tasks[tid] in w.procs[Caller(w).value].tasks;
  }
}
