/** The kernel calls of os/src/task, os/src/sync and os/src/timer.rs as steps on values, and the laws
    of every history of such steps. */
module TaskSteps {
  import opened Basics
  import opened Sync

  datatype Status = Ready | Running | Blocked

  datatype Kind = OfMutex | OfSemaphore | OfCondvar

  /** A wait queue belongs to one object of one process. */
  datatype QueueId = QueueId(pid: nat, kind: Kind, id: nat)

  /** `relock` is the mutex a thread inside a condition wait takes again when it runs next. */
  datatype Tcb = Tcb(pid: nat, tid: nat, status: Status, exitCode: Option<int>, relock: Option<QueueId>)

  datatype Pcb = Pcb(zombie: bool, tasks: seq<Option<Thread>>)

  datatype Timer = Timer(expireMs: nat, task: Thread)

  datatype Step =
    | RunNext
    | Yield
    | ClockTick(now: nat)
    | SleepFor(now: nat, ms: nat)
    | CreateObject(kind: Kind, id: nat, count: nat)
    | LockMutex(id: nat)
    | UnlockMutex(id: nat)
    | UpSemaphore(id: nat)
    | DownSemaphore(id: nat)
    | SignalCondvar(id: nat)
    | WaitCondvar(id: nat, mutex: nat)
    | Resume
    | StartThread(task: Thread, tid: nat)
    | StartProcess(pid: nat, task: Thread)
    | ExitThread(code: int)
    | JoinThread(tid: nat)

  /** The state of all threads. */
  datatype World = World(current: Option<Thread>, ready: seq<Thread>, timers: seq<Timer>,
                         queues: map<QueueId, seq<Thread>>, counts: map<QueueId, int>, locked: map<QueueId, bool>,
                         tcb: map<Thread, Tcb>, procs: map<nat, Pcb>)

  /** As many threads wait for a semaphore as its count is below zero, and none for an unlocked mutex. */
  ghost predicate PrimsOk(queues: map<QueueId, seq<Thread>>, counts: map<QueueId, int>, locked: map<QueueId, bool>) {
    && (forall q | q in counts ::
          && q.kind == OfSemaphore && q in queues
          && |queues[q]| == if counts[q] < 0 then -counts[q] else 0)
    && (forall q | q in locked :: q.kind == OfMutex && q in queues && (!locked[q] ==> queues[q] == []))
  }

  function Sleepers(timers: seq<Timer>): (s: seq<Thread>)
    ensures |s| == |timers| && forall i | 0 <= i < |s| :: s[i] == timers[i].task
  {
    seq(|timers|, i requires 0 <= i < |timers| => timers[i].task)
  }

  /** The list with `task` under number `tid`, extended by empty slots where it was too short. */
  function TaskSet(tasks: seq<Option<Thread>>, tid: nat, task: Thread): (r: seq<Option<Thread>>)
    ensures |r| == (if tid < |tasks| then |tasks| else tid + 1) && r[tid] == Some(task)
    ensures forall i | 0 <= i < |r| && i != tid :: r[i] == if i < |tasks| then tasks[i] else None
  {
    if tid < |tasks| then tasks[tid := Some(task)] else tasks + seq(tid - |tasks|, _ => None) + [Some(task)]
  }

  /** No live thread of the process has this number. */
  predicate FreeTid(tcb: map<Thread, Tcb>, pid: nat, tid: nat) {
    forall u | u in tcb && tcb[u].pid == pid && tcb[u].exitCode.None? :: tcb[u].tid != tid
  }

  /** The threads of a process. */
  ghost function Members(tcb: map<Thread, Tcb>, pid: nat): set<Thread> {
    set u | u in tcb && tcb[u].pid == pid
  }

  /** `woken` were popped in order of expiry, none after `now`, and none that is left expires earlier. */
  ghost predicate Fired(all: seq<Timer>, woken: seq<Timer>, left: seq<Timer>, now: nat) {
    && multiset(all) == multiset(woken) + multiset(left)
    && (forall i, j | 0 <= i < j < |woken| :: woken[i].expireMs <= woken[j].expireMs)
    && (forall i, j | 0 <= i < |woken| && 0 <= j < |left| :: woken[i].expireMs <= left[j].expireMs)
    && (forall i | 0 <= i < |woken| :: woken[i].expireMs <= now)
  }

  // What a step does.

  /** `s` without the threads in `gone`, in order. */
  ghost function Keep(s: seq<Thread>, gone: set<Thread>): seq<Thread> {
    if s == [] then []
    else Keep(s[..|s| - 1], gone) + (if s[|s| - 1] in gone then [] else [s[|s| - 1]])
  }

  lemma KeepSnoc(s: seq<Thread>, gone: set<Thread>, t: Thread)
    ensures Keep(s + [t], gone) == Keep(s, gone) + (if t in gone then [] else [t])
  {
    assert (s + [t])[..|s|] == s;
  }

  /** The threads that stay are those not in `gone`, as often as before. */
  lemma {:induction false} KeepCount(s: seq<Thread>, gone: set<Thread>)
    ensures forall u :: multiset(Keep(s, gone))[u] == if u in gone then 0 else multiset(s)[u]
  {
    if s != [] {
      var n := |s| - 1;
      KeepCount(s[..n], gone);
      assert s == s[..n] + [s[n]];
      assert multiset(s) == multiset(s[..n]) + multiset{s[n]};
      if s[n] !in gone {
        assert multiset(Keep(s, gone)) == multiset(Keep(s[..n], gone)) + multiset{s[n]};
      }
    }
  }

  /** They stay in order: the kept part of a prefix is a prefix of the kept part. */
  lemma {:induction false} KeepPrefix(s: seq<Thread>, gone: set<Thread>, k: nat)
    requires k <= |s|
    ensures Keep(s[..k], gone) <= Keep(s, gone) && |Keep(s[..k], gone)| <= k
    decreases |s|
  {
    if k < |s| {
      KeepPrefix(s[..|s| - 1], gone, k);
      assert s[..|s| - 1][..k] == s[..k];
    } else {
      assert s[..k] == s;
      if k > 0 {
        KeepPrefix(s[..k - 1], gone, k - 1);
        assert s[..k - 1][..k - 1] == s[..k - 1];
      }
    }
  }

  /** The timers of the threads in `gone` are cancelled; all others stay, with their expiries. */
  ghost predicate OthersTimed(timers: seq<Timer>, timers': seq<Timer>, gone: set<Thread>) {
    forall x :: multiset(timers')[x] == if x.task in gone then 0 else multiset(timers)[x]
  }

  ghost function SetStatus(tcb: map<Thread, Tcb>, t: Thread, status: Status): map<Thread, Tcb> {
    if t in tcb then tcb[t := tcb[t].(status := status)] else tcb
  }

  ghost function Awake(tcb: map<Thread, Tcb>, woken: seq<Thread>): map<Thread, Tcb> {
    map t | t in tcb :: if t in woken then tcb[t].(status := Ready) else tcb[t]
  }

  function Waiting(w: World, q: QueueId): seq<Thread> {
    if q in w.queues then w.queues[q] else []
  }

  /** The running thread leaves the processor. */
  ghost function Leave(w: World, status: Status): World
    requires w.current.Some?
  {
    w.(current := None, tcb := SetStatus(w.tcb, w.current.value, status))
  }

  ghost function Requeue(w: World): World
    requires w.current.Some?
  {
    Leave(w, Ready).(ready := w.ready + [w.current.value])
  }

  ghost function Block(w: World, q: QueueId): World
    requires w.current.Some?
  {
    Leave(w, Blocked).(queues := w.queues[q := Waiting(w, q) + [w.current.value]])
  }

  ghost function Wake(w: World, q: QueueId): World {
    var s := Waiting(w, q);
    if s == [] then w
    else w.(queues := w.queues[q := s[1..]], ready := w.ready + [s[0]], tcb := SetStatus(w.tcb, s[0], Ready))
  }

  ghost function Acquire(w: World, q: QueueId): World
    requires w.current.Some? && q in w.locked
  {
    if w.locked[q] then Block(w, q) else w.(locked := w.locked[q := true])
  }

  ghost function Release(w: World, q: QueueId): World {
    if Waiting(w, q) == [] then w.(locked := w.locked[q := false]) else Wake(w, q)
  }

  /** `Semaphore::up` */
  ghost function Post(w: World, q: QueueId): World
    requires q in w.counts
  {
    var v := w.(counts := w.counts[q := w.counts[q] + 1]);
    if w.counts[q] < 0 then Wake(v, q) else v
  }

  /** `Semaphore::down` */
  ghost function Take(w: World, q: QueueId): World
    requires q in w.counts && w.current.Some?
  {
    var v := w.(counts := w.counts[q := w.counts[q] - 1]);
    if w.counts[q] <= 0 then Block(v, q) else v
  }

  ghost function NewObject(w: World, q: QueueId, count: nat): World {
    var v := w.(queues := w.queues[q := []]);
    match q.kind
    case OfMutex => v.(locked := w.locked[q := false])
    case OfSemaphore => v.(counts := w.counts[q := count])
    case OfCondvar => v
  }

  /** Where the running thread goes on inside `Condvar::wait`. */
  ghost function Remember(w: World, relock: Option<QueueId>): World
    requires w.current.Some? && w.current.value in w.tcb
  {
    w.(tcb := w.tcb[w.current.value := w.tcb[w.current.value].(relock := relock)])
  }

  /** `Condvar::wait` up to the switch. */
  ghost function Await(w: World, q: QueueId, m: QueueId): World
    requires w.current.Some? && w.current.value in w.tcb
  {
    Block(Remember(Release(w, m), Some(m)), q)
  }

  /** The process of the running thread; `None` inside a condition wait, where no call is made. */
  function Caller(w: World): (pid: Option<nat>) {
    if w.current.Some? && w.current.value in w.tcb && w.tcb[w.current.value].relock.None?
    then Some(w.tcb[w.current.value].pid) else None
  }

  /** The calls that do not panic: the object exists, an unlocked mutex is not unlocked, new names are new. */
  predicate Enabled(w: World, step: Step) {
    match step
    case RunNext => w.current == None
    case StartProcess(pid, task) => pid !in w.procs && task !in w.tcb
    case Resume =>
      w.current.Some? && w.current.value in w.tcb && w.tcb[w.current.value].relock.Some? &&
      w.tcb[w.current.value].relock.value in w.locked
    case _ => Caller(w).Some? && CallEnabled(w, step, Caller(w).value)
  }

  predicate CallEnabled(w: World, step: Step, pid: nat) {
    match step
    case CreateObject(kind, id, _) => QueueId(pid, kind, id) !in w.queues
    case LockMutex(id) => QueueId(pid, OfMutex, id) in w.locked
    case UnlockMutex(id) => QueueId(pid, OfMutex, id) in w.locked && w.locked[QueueId(pid, OfMutex, id)]
    case UpSemaphore(id) => QueueId(pid, OfSemaphore, id) in w.counts
    case DownSemaphore(id) => QueueId(pid, OfSemaphore, id) in w.counts
    case SignalCondvar(id) => QueueId(pid, OfCondvar, id) in w.queues
    case WaitCondvar(id, mutex) => QueueId(pid, OfCondvar, id) in w.queues &&
      QueueId(pid, OfMutex, mutex) in w.locked && w.locked[QueueId(pid, OfMutex, mutex)]
    case StartThread(task, tid) => pid in w.procs && task !in w.tcb && FreeTid(w.tcb, pid, tid)
    case JoinThread(tid) => pid in w.procs && tid < |w.procs[pid].tasks|
    case _ => true
  }

  /** A call on a mutex, a semaphore or a condition variable. */
  predicate IsSync(step: Step) {
    step.CreateObject? || step.LockMutex? || step.UnlockMutex? || step.UpSemaphore? || step.DownSemaphore? ||
    step.SignalCondvar? || step.WaitCondvar?
  }

  ghost function SyncEffect(w: World, step: Step): World
    requires IsSync(step) && Caller(w).Some? && CallEnabled(w, step, Caller(w).value)
  {
    var pid := Caller(w).value;
    match step
    case CreateObject(kind, id, count) => NewObject(w, QueueId(pid, kind, id), count)
    case LockMutex(id) => Acquire(w, QueueId(pid, OfMutex, id))
    case UnlockMutex(id) => Release(w, QueueId(pid, OfMutex, id))
    case UpSemaphore(id) => Post(w, QueueId(pid, OfSemaphore, id))
    case DownSemaphore(id) => Take(w, QueueId(pid, OfSemaphore, id))
    case SignalCondvar(id) => Wake(w, QueueId(pid, OfCondvar, id))
    case WaitCondvar(id, mutex) => Await(w, QueueId(pid, OfCondvar, id), QueueId(pid, OfMutex, mutex))
  }

  /** Expired timers fire in order of expiry, and then the running thread is queued. */
  ghost predicate Ticked(w: World, now: nat, v: World, woken: seq<Timer>)
    requires w.current.Some?
  {
    && Fired(w.timers, woken, v.timers, now) && (forall x | x in v.timers :: x.expireMs > now)
    && v == Requeue(w.(timers := v.timers, ready := w.ready + Sleepers(woken), tcb := Awake(w.tcb, Sleepers(woken))))
  }

  /** A main thread takes its process down; any other thread goes alone. */
  ghost predicate Exited(w: World, code: int, v: World)
    requires w.current.Some? && w.current.value in w.tcb
  {
    var t := w.current.value;
    var c := w.tcb[t];
    var u := w.(current := None, tcb := w.tcb[t := c.(exitCode := Some(code))]);
    if c.tid != 0 then v == u
    else
      var gone := Members(w.tcb, c.pid);
      && v == u.(procs := w.procs[c.pid := Pcb(true, [])], ready := Keep(w.ready, gone), timers := v.timers)
      && OthersTimed(w.timers, v.timers, gone)
  }

  /** The thread under number `tid` of the caller's process. */
  function Waited(w: World, tid: nat): Option<Thread>
    requires Caller(w).Some? && Caller(w).value in w.procs && tid < |w.procs[Caller(w).value].tasks|
  {
    w.procs[Caller(w).value].tasks[tid]
  }

  /** What `sys_waittid` returns. */
  ghost function JoinResult(w: World, tid: nat): int
    requires Caller(w).Some? && Caller(w).value in w.procs && tid < |w.procs[Caller(w).value].tasks|
  {
    var t := Waited(w, tid);
    if tid == w.tcb[w.current.value].tid || t.None? || t.value !in w.tcb then -1
    else if w.tcb[t.value].exitCode.Some? then w.tcb[t.value].exitCode.value else -2
  }

  ghost function Joined(w: World, tid: nat): World
    requires Caller(w).Some? && Caller(w).value in w.procs && tid < |w.procs[Caller(w).value].tasks|
  {
    var pid, t := Caller(w).value, Waited(w, tid);
    if tid != w.tcb[w.current.value].tid && t.Some? && t.value in w.tcb && w.tcb[t.value].exitCode.Some?
    then w.(procs := w.procs[pid := w.procs[pid].(tasks := w.procs[pid].tasks[tid := None])]) else w
  }

  /** What an enabled step does. */
  ghost predicate Effect(w: World, step: Step, v: World)
    requires Enabled(w, step)
  {
    match step
    case RunNext =>
      if w.ready == [] then v == w
      else v == w.(current := Some(w.ready[0]), ready := w.ready[1..], tcb := SetStatus(w.tcb, w.ready[0], Running))
    case Yield => v == Requeue(w)
    case ClockTick(now) => exists woken :: Ticked(w, now, v, woken)
    case SleepFor(now, ms) => v == Leave(w, Blocked).(timers := w.timers + [Timer(now + ms, w.current.value)])
    case Resume => v == Acquire(Remember(w, None), w.tcb[w.current.value].relock.value)
    case StartThread(task, tid) =>
      var pid := Caller(w).value;
      v == w.(ready := w.ready + [task], tcb := w.tcb[task := Tcb(pid, tid, Ready, None, None)],
              procs := w.procs[pid := w.procs[pid].(tasks := TaskSet(w.procs[pid].tasks, tid, task))])
    case StartProcess(pid, task) =>
      v == w.(ready := w.ready + [task], tcb := w.tcb[task := Tcb(pid, 0, Ready, None, None)],
              procs := w.procs[pid := Pcb(false, [Some(task)])])
    case ExitThread(code) => Exited(w, code, v)
    case JoinThread(tid) => v == Joined(w, tid)
    case _ => v == SyncEffect(w, step)
  }

  ghost predicate Next(w: World, step: Step, v: World) {
    if Enabled(w, step) then Effect(w, step, v) else v == w
  }

  /** `worlds` are the states before, between and after the steps. */
  ghost predicate History(steps: seq<Step>, worlds: seq<World>) {
    && |worlds| == |steps| + 1
    && (forall i | 0 <= i < |steps| :: Next(worlds[i], steps[i], worlds[i + 1]))
    && (forall i | 0 <= i <= |steps| :: PrimsOk(worlds[i].queues, worlds[i].counts, worlds[i].locked))
  }
}
