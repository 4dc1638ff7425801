/** Threads, the ready queue, the processor slot, the wait queues and the timers (os/src/task,
    os/src/timer.rs). One core and no preemption inside the kernel, so each kernel call is one step. */
module Scheduler {
  import opened Basics
  import opened Sync
  import opened TaskSteps
  import opened TaskLaws

  datatype Place = OnCpu | InReady | InTimers | InQueue(q: QueueId) | Nowhere

  type Places = map<Thread, Place>

  ghost predicate Distinct(s: seq<Thread>) {
    forall i, j | 0 <= i < j < |s| :: s[i] != s[j]
  }

  /** `s` holds the threads whose place is `p`, each once, and nothing else. */
  ghost predicate Listed(s: seq<Thread>, place: Places, p: Place) {
    Distinct(s) && forall t :: t in s <==> t in place && place[t] == p
  }

  lemma {:induction false} Appended(s: seq<Thread>, place: Places, p: Place, t: Thread)
    requires Listed(s, place, p) && (t in place ==> place[t] != p)
    ensures Listed(s + [t], place[t := p], p)
  {
  }

  lemma {:induction false} Unaffected(s: seq<Thread>, place: Places, p: Place, t: Thread, p': Place)
    requires Listed(s, place, p) && (t in place ==> place[t] != p) && p' != p
    ensures Listed(s, place[t := p'], p)
  {
  }

  lemma {:induction false} RemovedAt(s: seq<Thread>, place: Places, p: Place, i: nat, p': Place)
    requires Listed(s, place, p) && i < |s| && p' != p
    ensures Listed(s[..i] + s[i + 1..], place[s[i] := p'], p)
  {
    var r := s[..i] + s[i + 1..];
    assert forall k | 0 <= k < |r| :: r[k] == if k < i then s[k] else s[k + 1];
    forall t ensures t in r <==> t in s && t != s[i] {
      if t in s && t != s[i] {
        var k :| 0 <= k < |s| && s[k] == t;
        assert r[if k < i then k else k - 1] == t;
      }
    }
  }

  lemma {:induction false} ListedAt(s: seq<Thread>, place: Places, p: Place, i: nat)
    requires Listed(s, place, p) && i < |s|
    ensures s[i] in place && place[s[i]] == p
  {
    assert s[i] in s;
  }

  lemma {:induction false} OnlyAt(s: seq<Thread>, place: Places, p: Place, t: Thread, i: nat)
    requires Listed(s, place, p) && i <= |s| && (i < |s| ==> s[i] == t) && forall k | 0 <= k < i :: s[k] != t
    ensures forall j | 0 <= j < |s| && s[j] == t :: j == i
  {
  }

  lemma {:induction false} NotListed(s: seq<Thread>, place: Places, p: Place, t: Thread)
    requires Listed(s, place, p) && t in place
    ensures t in s <==> place[t] == p
  {
  }

  /** Moving one thread leaves every list it neither leaves nor enters as it was. */
  lemma {:induction false} Moved(ready: seq<Thread>, sleepers: seq<Thread>, queues: map<QueueId, seq<Thread>>,
            place: Places, t: Thread, p': Place)
    requires Listed(ready, place, InReady) && Listed(sleepers, place, InTimers) && t in place
    requires forall q | q in queues :: Listed(queues[q], place, InQueue(q))
    ensures place[t] != InReady && p' != InReady ==> Listed(ready, place[t := p'], InReady)
    ensures place[t] != InTimers && p' != InTimers ==> Listed(sleepers, place[t := p'], InTimers)
    ensures forall q | q in queues && place[t] != InQueue(q) && p' != InQueue(q) ::
        Listed(queues[q], place[t := p'], InQueue(q))
  {
    hide Listed;
    if place[t] != InReady && p' != InReady {
      Unaffected(ready, place, InReady, t, p');
    }
    if place[t] != InTimers && p' != InTimers {
      Unaffected(sleepers, place, InTimers, t, p');
    }
    forall q | q in queues && place[t] != InQueue(q) && p' != InQueue(q)
      ensures Listed(queues[q], place[t := p'], InQueue(q)) {
      Unaffected(queues[q], place, InQueue(q), t, p');
    }
  }

  ghost predicate StatusFits(status: Status, p: Place) {
    match p
    case OnCpu => status == Running
    case InReady => status == Ready
    case InTimers => status == Blocked
    case InQueue(_) => status == Blocked
    case Nowhere => false
  }

  /** A live thread of a live process is somewhere, its status says where, and its process lists it;
      waiting is local to the process; a dead process has nothing ready, running or sleeping. */
  ghost predicate ThreadOk(t: Thread, place: Places, tcb: map<Thread, Tcb>, procs: map<nat, Pcb>)
    requires t in place && t in tcb
  {
    && tcb[t].pid in procs
    && (place[t].InQueue? ==> place[t].q.pid == tcb[t].pid)
    && (tcb[t].relock.Some? ==> tcb[t].relock.value.pid == tcb[t].pid)
    && (tcb[t].exitCode.Some? ==> place[t] == Nowhere)
    && (procs[tcb[t].pid].zombie ==> place[t] == Nowhere || place[t].InQueue?)
    && (!procs[tcb[t].pid].zombie && tcb[t].exitCode.None? ==>
          && StatusFits(tcb[t].status, place[t])
          && tcb[t].tid < |procs[tcb[t].pid].tasks| && procs[tcb[t].pid].tasks[tcb[t].tid] == Some(t))
  }

  /** The threads a process lists are its own. */
  ghost predicate TasksOk(pid: nat, tasks: seq<Option<Thread>>, tcb: map<Thread, Tcb>) {
    forall i | 0 <= i < |tasks| && tasks[i].Some? :: tasks[i].value in tcb && tcb[tasks[i].value].pid == pid
  }

  ghost predicate ThreadsOk(place: Places, tcb: map<Thread, Tcb>, procs: map<nat, Pcb>) {
    place.Keys == tcb.Keys && forall t | t in tcb :: ThreadOk(t, place, tcb, procs)
  }

  /** Processes list their own threads, and a mutex to be taken again exists. */
  ghost predicate ListsOk(tcb: map<Thread, Tcb>, procs: map<nat, Pcb>, mutexes: set<QueueId>) {
    && (forall p | p in procs :: TasksOk(p, procs[p].tasks, tcb))
    && (forall t | t in tcb && tcb[t].relock.Some? :: tcb[t].relock.value in mutexes)
  }

  /** Changing one thread and its place. */
  lemma Relocated(place: Places, tcb: map<Thread, Tcb>, procs: map<nat, Pcb>, mutexes: set<QueueId>, t: Thread,
            p': Place, c: Tcb)
    requires ThreadsOk(place, tcb, procs) && ListsOk(tcb, procs, mutexes) && t in tcb && c.pid == tcb[t].pid
    requires ThreadOk(t, place[t := p'], tcb[t := c], procs)
    requires c.relock == tcb[t].relock || c.relock.None? || c.relock.value in mutexes
    ensures ThreadsOk(place[t := p'], tcb[t := c], procs) && ListsOk(tcb[t := c], procs, mutexes)
    ensures place[t := p'].Keys == tcb[t := c].Keys
  {
    var place', tcb' := place[t := p'], tcb[t := c];
    forall u | u in tcb' ensures ThreadOk(u, place', tcb', procs) {
      if u != t {
        assert ThreadOk(u, place, tcb, procs);
      }
    }
    assert place'.Keys == tcb'.Keys;
  }

  /** A thread that is running, ready or asleep is a live thread of a live process; so is one in a
      queue of a live process. */
  lemma LiveThread(place: Places, tcb: map<Thread, Tcb>, procs: map<nat, Pcb>, t: Thread)
    requires ThreadsOk(place, tcb, procs) && t in tcb && place[t] != Nowhere
    requires place[t].InQueue? ==> place[t].q.pid in procs && !procs[place[t].q.pid].zombie
    ensures tcb[t].pid in procs && !procs[tcb[t].pid].zombie && tcb[t].exitCode.None?
    ensures tcb[t].tid < |procs[tcb[t].pid].tasks| && procs[tcb[t].pid].tasks[tcb[t].tid] == Some(t)
    ensures StatusFits(tcb[t].status, place[t])
    ensures tcb[t].relock.Some? ==> tcb[t].relock.value.pid == tcb[t].pid
    ensures place[t].InQueue? ==> place[t].q.pid == tcb[t].pid
  {
    assert ThreadOk(t, place, tcb, procs);
  }

  /** The timers of all other threads. */
  function Cancelled(timers: seq<Timer>, t: Thread): seq<Timer> {
    if timers == [] then []
    else Cancelled(timers[..|timers| - 1], t) + (if timers[|timers| - 1].task != t then [timers[|timers| - 1]] else [])
  }

  lemma {:induction false} CancelledListed(timers: seq<Timer>, t: Thread)
    requires Distinct(Sleepers(timers))
    ensures var r := Sleepers(Cancelled(timers, t)); Distinct(r) && forall u :: u in r <==>
        u in Sleepers(timers) && u != t
  {
    var s := Sleepers(timers);
    if timers != [] {
      var n := |timers| - 1;
      var init := Sleepers(timers[..n]);
      CancelledListed(timers[..n], t);
      assert s == init + [timers[n].task];
      assert forall k | 0 <= k < n :: init[k] == s[k];
      assert timers[n].task !in init;
      var r0, r := Sleepers(Cancelled(timers[..n], t)), Sleepers(Cancelled(timers, t));
      assert r == r0 + if timers[n].task != t then [timers[n].task] else [];
    } else {
      assert Cancelled(timers, t) == [];
    }
  }

  lemma {:induction false} CancelledCount(timers: seq<Timer>, t: Thread)
    ensures forall x :: multiset(Cancelled(timers, t))[x] == if x.task == t then 0 else multiset(timers)[x]
  {
    if timers != [] {
      var n := |timers| - 1;
      CancelledCount(timers[..n], t);
      assert timers == timers[..n] + [timers[n]];
      assert multiset(timers) == multiset(timers[..n]) + multiset{timers[n]};
      if timers[n].task != t {
        assert multiset(Cancelled(timers, t)) == multiset(Cancelled(timers[..n], t)) + multiset{timers[n]};
      }
    }
  }

  lemma {:induction false} CancelledKeeps(timers: seq<Timer>, place: Places, t: Thread)
    requires Listed(Sleepers(timers), place, InTimers) && t in place
    ensures Listed(Sleepers(Cancelled(timers, t)), if place[t] == InTimers then place[t := Nowhere] else place,
        InTimers)
  {
    CancelledListed(timers, t);
  }

  /** Every list agrees with `place`. */
  ghost predicate PlacedAt(current: Option<Thread>, ready: seq<Thread>, sleepers: seq<Thread>,
            queues: map<QueueId, seq<Thread>>, place: Places) {
    && Listed(ready, place, InReady)
    && Listed(sleepers, place, InTimers)
    && (forall q | q in queues :: Listed(queues[q], place, InQueue(q)))
    && (forall t | t in place && place[t].InQueue? :: place[t].q in queues)
    && (forall t | t in place && place[t] == OnCpu :: current == Some(t))
    && (current.Some? ==> current.value in place && place[current.value] == OnCpu)
  }

  lemma {:induction false} JoinReady(current: Option<Thread>, ready: seq<Thread>, sleepers: seq<Thread>,
            queues: map<QueueId, seq<Thread>>, place: Places, t: Thread)
    requires PlacedAt(current, ready, sleepers, queues, place) && t in place && place[t] == Nowhere
    ensures PlacedAt(current, ready + [t], sleepers, queues, place[t := InReady])
  {
    hide Listed;
    Appended(ready, place, InReady, t);
    Moved(ready, sleepers, queues, place, t, InReady);
  }

  lemma {:induction false} LeaveReady(current: Option<Thread>, ready: seq<Thread>, sleepers: seq<Thread>,
            queues: map<QueueId, seq<Thread>>, place: Places, i: nat)
    requires PlacedAt(current, ready, sleepers, queues, place) && i < |ready|
    ensures ready[i] in place && place[ready[i]] == InReady
    ensures PlacedAt(current, ready[..i] + ready[i + 1..], sleepers, queues, place[ready[i] := Nowhere])
  {
    hide Listed;
    ListedAt(ready, place, InReady, i);
    RemovedAt(ready, place, InReady, i, Nowhere);
    Moved(ready, sleepers, queues, place, ready[i], Nowhere);
  }

  lemma {:induction false} LeaveCpu(current: Option<Thread>, ready: seq<Thread>, sleepers: seq<Thread>,
            queues: map<QueueId, seq<Thread>>, place: Places)
    requires PlacedAt(current, ready, sleepers, queues, place) && current.Some?
    ensures current.value in place && place[current.value] == OnCpu
    ensures PlacedAt(None, ready, sleepers, queues, place[current.value := Nowhere])
  {
    hide Listed;
    Moved(ready, sleepers, queues, place, current.value, Nowhere);
  }

  lemma {:induction false} JoinCpu(ready: seq<Thread>, sleepers: seq<Thread>, queues: map<QueueId, seq<Thread>>,
            place: Places, t: Thread)
    requires PlacedAt(None, ready, sleepers, queues, place) && t in place && place[t] == Nowhere
    ensures PlacedAt(Some(t), ready, sleepers, queues, place[t := OnCpu])
  {
    hide Listed;
    Moved(ready, sleepers, queues, place, t, OnCpu);
  }

  lemma {:induction false} JoinTimers(current: Option<Thread>, ready: seq<Thread>, sleepers: seq<Thread>,
            queues: map<QueueId, seq<Thread>>, place: Places, t: Thread)
    requires PlacedAt(current, ready, sleepers, queues, place) && t in place && place[t] == Nowhere
    ensures PlacedAt(current, ready, sleepers + [t], queues, place[t := InTimers])
  {
    hide Listed;
    Appended(sleepers, place, InTimers, t);
    Moved(ready, sleepers, queues, place, t, InTimers);
  }

  lemma {:induction false} LeaveTimers(current: Option<Thread>, ready: seq<Thread>, sleepers: seq<Thread>,
            queues: map<QueueId, seq<Thread>>, place: Places, i: nat)
    requires PlacedAt(current, ready, sleepers, queues, place) && i < |sleepers|
    ensures sleepers[i] in place && place[sleepers[i]] == InTimers
    ensures PlacedAt(current, ready, sleepers[..i] + sleepers[i + 1..], queues, place[sleepers[i] := Nowhere])
  {
    hide Listed;
    ListedAt(sleepers, place, InTimers, i);
    RemovedAt(sleepers, place, InTimers, i, Nowhere);
    Moved(ready, sleepers, queues, place, sleepers[i], Nowhere);
  }

  lemma {:induction false} CancelTimer(current: Option<Thread>, ready: seq<Thread>, timers: seq<Timer>,
            queues: map<QueueId, seq<Thread>>, place: Places, t: Thread)
    requires PlacedAt(current, ready, Sleepers(timers), queues, place) && t in place
    ensures var place' := if place[t] == InTimers then place[t := Nowhere] else place;
            PlacedAt(current, ready, Sleepers(Cancelled(timers, t)), queues, place')
  {
    hide Listed;
    CancelledKeeps(timers, place, t);
    Moved(ready, Sleepers(timers), queues, place, t, Nowhere);
  }

  lemma {:induction false} JoinQueue(current: Option<Thread>, ready: seq<Thread>, sleepers: seq<Thread>,
            queues: map<QueueId, seq<Thread>>, place: Places, q: QueueId, t: Thread)
    requires PlacedAt(current, ready, sleepers, queues, place) && t in place && place[t] == Nowhere && q in queues
    ensures PlacedAt(current, ready, sleepers, queues[q := queues[q] + [t]], place[t := InQueue(q)])
  {
    hide Listed;
    Appended(queues[q], place, InQueue(q), t);
    Moved(ready, sleepers, queues, place, t, InQueue(q));
  }

  lemma {:induction false} LeaveQueue(current: Option<Thread>, ready: seq<Thread>, sleepers: seq<Thread>,
            queues: map<QueueId, seq<Thread>>, place: Places, q: QueueId)
    requires PlacedAt(current, ready, sleepers, queues, place) && q in queues && queues[q] != []
    ensures queues[q][0] in place && place[queues[q][0]] == InQueue(q)
    ensures PlacedAt(current, ready, sleepers, queues[q := queues[q][1..]], place[queues[q][0] := Nowhere])
  {
    hide Listed;
    var t := queues[q][0];
    ListedAt(queues[q], place, InQueue(q), 0);
    RemovedAt(queues[q], place, InQueue(q), 0, Nowhere);
    assert queues[q][..0] + queues[q][1..] == queues[q][1..];
    Moved(ready, sleepers, queues, place, t, Nowhere);
  }

  /** What whole-run statements speak about; `trace` is the list of dispatched threads. */
  datatype Snap = Snap(tcb: map<Thread, Tcb>, procs: map<nat, Pcb>, ready: seq<Thread>, trace: seq<Thread>)

  ghost predicate Dead(t: Thread, s: Snap) {
    t in s.tcb && s.tcb[t].pid in s.procs && s.procs[s.tcb[t].pid].zombie
  }

  /** Dispatched among the `k + 1` dispatches that follow the first `n`. */
  ghost predicate Served(t: Thread, k: nat, n: nat, s: Snap) {
    exists i :: n <= i <= n + k && i < |s.trace| && s.trace[i] == t
  }

  /** Still ready, with no more than `k` minus the dispatches since the first `n` ahead of it. */
  ghost predicate Closer(t: Thread, k: nat, n: nat, s: Snap) {
    exists j :: 0 <= j < |s.ready| && j + (|s.trace| - n) <= k && s.ready[j] == t
  }

  /** What any run from `a` to `b` keeps: threads stay with their process, dead processes stay dead
      and are not dispatched, and the ready queue is served in order. */
  ghost predicate Forward(a: Snap, b: Snap) {
    && a.trace <= b.trace
    && (forall t | t in a.tcb :: t in b.tcb && b.tcb[t].pid == a.tcb[t].pid)
    && (forall p | p in a.procs :: p in b.procs && (a.procs[p].zombie ==> b.procs[p].zombie))
    && (forall i | |a.trace| <= i < |b.trace| ::
      b.trace[i] in b.tcb && (b.tcb[b.trace[i]].pid in a.procs ==> !a.procs[b.tcb[b.trace[i]].pid].zombie))
    && (forall k | 0 <= k < |a.ready| ::
      Dead(a.ready[k], b) || Served(a.ready[k], k, |a.trace|, b) || Closer(a.ready[k], k, |a.trace|, b))
  }

  /** Nothing dispatched, nothing taken from the ready queue. */
  ghost predicate Quiet(a: Snap, b: Snap) {
    && a.trace == b.trace && a.ready <= b.ready
    && (forall t | t in a.tcb :: t in b.tcb && b.tcb[t].pid == a.tcb[t].pid)
    && (forall p | p in a.procs :: p in b.procs && (a.procs[p].zombie ==> b.procs[p].zombie))
  }

  lemma QuietForward(a: Snap, b: Snap)
    requires Quiet(a, b)
    ensures Forward(a, b)
  {
    forall k | 0 <= k < |a.ready| ensures Closer(a.ready[k], k, |a.trace|, b) {
      assert b.ready[k] == a.ready[k];
    }
  }

  lemma ForwardTrans(a: Snap, b: Snap, c: Snap)
    requires Forward(a, b) && Forward(b, c)
    ensures Forward(a, c)
  {
    forall i | |a.trace| <= i < |c.trace|
      ensures c.trace[i] in c.tcb && (c.tcb[c.trace[i]].pid in a.procs ==> !a.procs[c.tcb[c.trace[i]].pid].zombie) {
      if i < |b.trace| {
        assert b.trace[i] == c.trace[i];
      }
    }
    forall k | 0 <= k < |a.ready|
      ensures Dead(a.ready[k], c) || Served(a.ready[k], k, |a.trace|, c) || Closer(a.ready[k], k, |a.trace|, c) {
      LineTrans(a, b, c, k);
    }
  }

  lemma LineTrans(a: Snap, b: Snap, c: Snap, k: nat)
    requires Forward(a, b) && Forward(b, c) && k < |a.ready|
    ensures Dead(a.ready[k], c) || Served(a.ready[k], k, |a.trace|, c) || Closer(a.ready[k], k, |a.trace|, c)
  {
    var t, n := a.ready[k], |a.trace|;
    if Dead(t, b) {
    } else if Served(t, k, n, b) {
      var i :| n <= i <= n + k && i < |b.trace| && b.trace[i] == t;
      assert c.trace[i] == t;
    } else {
      var j :| 0 <= j < |b.ready| && j + (|b.trace| - n) <= k && b.ready[j] == t;
      assert Dead(t, c) || Served(t, j, |b.trace|, c) || Closer(t, j, |b.trace|, c);
    }
  }

  lemma DispatchForward(a: Snap, b: Snap)
    requires a.ready != [] && b.ready == a.ready[1..] && b.trace == a.trace + [a.ready[0]] && b.procs == a.procs
    requires a.ready[0] in a.tcb && a.tcb[a.ready[0]].pid in a.procs && !a.procs[a.tcb[a.ready[0]].pid].zombie
    requires b.tcb.Keys == a.tcb.Keys && forall t | t in a.tcb :: b.tcb[t].pid == a.tcb[t].pid
    ensures Forward(a, b)
  {
    assert b.trace[|a.trace|] == a.ready[0];
    forall k | 0 <= k < |a.ready| ensures Served(a.ready[k], k, |a.trace|, b) || Closer(a.ready[k], k, |a.trace|, b) {
      if k > 0 {
        assert b.ready[k - 1] == a.ready[k];
      }
    }
  }

  /** What `peek` may return: the heap does not say which of several timers with the same expiry. */
  predicate Earliest(timers: seq<Timer>, i: int) {
    0 <= i < |timers| && forall j | 0 <= j < |timers| :: timers[i].expireMs <= timers[j].expireMs
  }

  lemma {:induction false} SomeEarliest(timers: seq<Timer>)
    requires timers != []
    ensures exists i :: 0 <= i < |timers| && Earliest(timers, i)
  {
    var i := 0;
    for n := 1 to |timers|
      invariant 0 <= i < n && forall j | 0 <= j < n :: timers[i].expireMs <= timers[j].expireMs
    {
      if timers[n].expireMs < timers[i].expireMs {
        i := n;
      }
    }
    assert Earliest(timers, i);
  }

  lemma {:induction false} Popped(timers: seq<Timer>, i: nat, rest: seq<Timer>)
    requires i < |timers| && rest == timers[..i] + timers[i + 1..]
    ensures multiset(timers) == multiset(rest) + multiset{timers[i]}
    ensures forall j | 0 <= j < |rest| :: rest[j] in timers
  {
    assert timers == timers[..i] + [timers[i]] + timers[i + 1..];
    assert forall j | 0 <= j < |rest| :: rest[j] == timers[if j < i then j else j + 1];
  }

  lemma {:induction false} FireNext(all: seq<Timer>, woken: seq<Timer>, left: seq<Timer>, now: nat, i: nat)
    requires Fired(all, woken, left, now) && Earliest(left, i) && left[i].expireMs <= now
    ensures Fired(all, woken + [left[i]], left[..i] + left[i + 1..], now)
  {
    var rest, more := left[..i] + left[i + 1..], woken + [left[i]];
    Popped(left, i, rest);
    assert multiset(more) == multiset(woken) + multiset{left[i]};
    assert multiset(all) == multiset(more) + multiset(rest);
    forall k, j | 0 <= k < |more| && 0 <= j < |rest| ensures more[k].expireMs <= rest[j].expireMs {
      var m :| 0 <= m < |left| && left[m] == rest[j];
    }
  }

  lemma {:induction false} LateOnes(timers: seq<Timer>, i: nat, now: nat)
    requires Earliest(timers, i) && timers[i].expireMs > now
    ensures forall x | x in timers :: x.expireMs > now
  {
  }

  lemma {:induction false} NoneFired(timers: seq<Timer>, now: nat)
    ensures Fired(timers, [], timers, now)
  {
  }

  lemma AwakeNone(tcb: map<Thread, Tcb>)
    ensures Awake(tcb, Sleepers([])) == tcb
  {
  }

  lemma AwakeMore(tcb: map<Thread, Tcb>, woken: seq<Thread>, t: Thread)
    ensures Awake(tcb, woken + [t]) == SetStatus(Awake(tcb, woken), t, Ready)
  {
  }

  lemma QuietSelf(a: Snap)
    ensures Quiet(a, a)
  {
  }

  lemma QuietTrans(a: Snap, b: Snap, c: Snap)
    requires Quiet(a, b) && Quiet(b, c)
    ensures Quiet(a, c)
  {
  }

  lemma {:induction false} NewQueue(current: Option<Thread>, ready: seq<Thread>, sleepers: seq<Thread>,
            queues: map<QueueId, seq<Thread>>, place: Places, q: QueueId)
    requires PlacedAt(current, ready, sleepers, queues, place) && q !in queues
    ensures PlacedAt(current, ready, sleepers, queues[q := []], place)
  {
  }

  lemma {:induction false} Born(current: Option<Thread>, ready: seq<Thread>, sleepers: seq<Thread>,
            queues: map<QueueId, seq<Thread>>, place: Places, t: Thread)
    requires PlacedAt(current, ready, sleepers, queues, place) && t !in place
    ensures PlacedAt(current, ready, sleepers, queues, place[t := Nowhere])
  {
    var place' := place[t := Nowhere];
    forall q | q in queues ensures Listed(queues[q], place', InQueue(q)) {
      Unaffected(queues[q], place, InQueue(q), t, Nowhere);
    }
  }

  /** The loop of `sys_thread_create` that makes room for the new number. */
  method SetTask(before: seq<Option<Thread>>, tid: nat, task: Thread) returns (tasks: seq<Option<Thread>>)
    ensures tasks == TaskSet(before, tid, task)
  {
    tasks := before;
    while |tasks| < tid + 1
      invariant before <= tasks && (|tasks| <= tid + 1 || tasks == before) && forall i | |before| <= i < |tasks| ::
          tasks[i] == None
      decreases tid + 1 - |tasks|
    {
      tasks := tasks + [None];
    }
    tasks := tasks[tid := Some(task)];
  }

  lemma {:induction false} NewThread(place: Places, tcb: map<Thread, Tcb>, procs: map<nat, Pcb>,
            mutexes: set<QueueId>, t: Thread, c: Tcb, tasks: seq<Option<Thread>>)
    requires ThreadsOk(place, tcb, procs) && ListsOk(tcb, procs, mutexes) && t !in tcb
    requires c.status == Ready && c.exitCode == None && c.relock == None && c.tid < |tasks| && tasks[c.tid] == Some(t)
    requires c.pid in procs ==> !procs[c.pid].zombie && FreeTid(tcb, c.pid, c.tid)
    requires forall i | 0 <= i < |tasks| && i != c.tid && tasks[i].Some? ::
        c.pid in procs && i < |procs[c.pid].tasks| && tasks[i] == procs[c.pid].tasks[i]
    requires c.pid in procs ==>
        |procs[c.pid].tasks| <= |tasks| && forall i | 0 <= i < |procs[c.pid].tasks| && i != c.tid ::
        tasks[i] == procs[c.pid].tasks[i]
    ensures ThreadsOk(place[t := InReady], tcb[t := c], procs[c.pid := Pcb(false, tasks)])
    ensures ListsOk(tcb[t := c], procs[c.pid := Pcb(false, tasks)], mutexes)
  {
    var place', tcb', procs' := place[t := InReady], tcb[t := c], procs[c.pid := Pcb(false, tasks)];
    forall u | u in tcb' ensures ThreadOk(u, place', tcb', procs') {
      if u != t {
        assert ThreadOk(u, place, tcb, procs);
      }
    }
    assert place'.Keys == tcb'.Keys;
    forall p | p in procs' ensures TasksOk(p, procs'[p].tasks, tcb') {
      if p in procs {
        assert TasksOk(p, procs[p].tasks, tcb);
      }
    }
  }

  lemma {:induction false} TaskCleared(place: Places, tcb: map<Thread, Tcb>, procs: map<nat, Pcb>,
            mutexes: set<QueueId>, p: nat, i: nat)
    requires ThreadsOk(place, tcb, procs) && ListsOk(tcb, procs, mutexes) && p in procs && i < |procs[p].tasks|
    requires procs[p].tasks[i].Some? ==> procs[p].tasks[i].value in tcb && tcb[procs[p].tasks[i].value].exitCode.Some?
    ensures ThreadsOk(place, tcb, procs[p := procs[p].(tasks := procs[p].tasks[i := None])])
    ensures ListsOk(tcb, procs[p := procs[p].(tasks := procs[p].tasks[i := None])], mutexes)
  {
    var procs' := procs[p := procs[p].(tasks := procs[p].tasks[i := None])];
    forall u | u in tcb ensures ThreadOk(u, place, tcb, procs') {
      assert ThreadOk(u, place, tcb, procs);
    }
    forall r | r in procs' ensures TasksOk(r, procs'[r].tasks, tcb) {
      assert TasksOk(r, procs[r].tasks, tcb);
    }
  }

  /** `b` is `a` without some threads of `gone`; nobody else has more threads ahead than before. */
  ghost predicate Thinned(a: seq<Thread>, b: seq<Thread>, gone: set<Thread>) {
    forall k | 0 <= k < |a| :: a[k] in gone || Within(a[k], k, b)
  }

  ghost predicate Within(t: Thread, k: nat, s: seq<Thread>) {
    exists j :: 0 <= j <= k && j < |s| && s[j] == t
  }

  lemma {:induction false} ThinnedForward(a: Snap, b: Snap, gone: set<Thread>)
    requires a.trace == b.trace && Thinned(a.ready, b.ready, gone)
    requires forall t | t in gone :: Dead(t, b)
    requires forall t | t in a.tcb :: t in b.tcb && b.tcb[t].pid == a.tcb[t].pid
    requires forall p | p in a.procs :: p in b.procs && (a.procs[p].zombie ==> b.procs[p].zombie)
    ensures Forward(a, b)
  {
    forall k | 0 <= k < |a.ready| && a.ready[k] !in gone ensures Closer(a.ready[k], k, |a.trace|, b) {
      var j :| 0 <= j <= k && j < |b.ready| && b.ready[j] == a.ready[k];
    }
  }

  lemma {:induction false} ThreadGone(a: Snap, b: Snap, task: Thread)
    requires a.trace == b.trace && a.ready == b.ready && a.procs == b.procs && task in a.tcb && task in b.tcb
    requires b.tcb == a.tcb[task := b.tcb[task]] && b.tcb[task].pid == a.tcb[task].pid
    ensures Forward(a, b)
  {
    QuietForward(a, b);
  }

  lemma {:induction false} KilledForward(a: Snap, b: Snap, task: Thread, pid: nat)
    requires a.trace == b.trace && task in a.tcb && task in b.tcb && b.tcb == a.tcb[task := b.tcb[task]] &&
        b.tcb[task].pid == a.tcb[task].pid
    requires b.procs == a.procs[pid := Pcb(true, [])] && Thinned(a.ready, b.ready, Members(b.tcb, pid))
    ensures Forward(a, b)
  {
    hide Thinned, Forward;
    ThinnedForward(a, b, Members(b.tcb, pid));
  }

  /** The main thread is gone and the threads its process lists are neither ready nor asleep. */
  lemma {:induction false} ProcessDead(place: Places, tcb: map<Thread, Tcb>, procs: map<nat, Pcb>,
            mutexes: set<QueueId>, t: Thread, place': Places, tcb': map<Thread, Tcb>)
    requires ThreadsOk(place, tcb, procs) && ListsOk(tcb, procs, mutexes) && t in tcb && tcb[t].pid in procs
    requires tcb'.Keys == tcb.Keys && place'.Keys == place.Keys && place'[t] == Nowhere
    requires forall u | u in tcb && u != t :: tcb'[u] == tcb[u]
    requires tcb'[t].pid == tcb[t].pid && tcb'[t].relock == tcb[t].relock
    requires forall u | u in tcb && u != t ::
        place'[u] != OnCpu && (place'[u] == place[u] || (tcb[u].pid == tcb[t].pid && place'[u] == Nowhere))
    requires forall u | u in ThreadsOf(procs[tcb[t].pid].tasks) && u in place' ::
        place'[u] != InReady && place'[u] != InTimers
    ensures ThreadsOk(place', tcb', procs[tcb[t].pid := Pcb(true, [])]) &&
        ListsOk(tcb', procs[tcb[t].pid := Pcb(true, [])], mutexes)
  {
    hide ThreadOk, TasksOk;
    var p := tcb[t].pid;
    var procs' := procs[p := Pcb(true, [])];
    forall u | u in tcb' ensures ThreadOk(u, place', tcb', procs') {
      assert ThreadOk(u, place, tcb, procs);
      DeadThread(place, tcb, procs, t, place', tcb', u);
    }
    forall r | r in procs' ensures TasksOk(r, procs'[r].tasks, tcb') {
      assert TasksOk(r, procs[r].tasks, tcb);
      SameTasks(r, procs[r].tasks, procs'[r].tasks, tcb, tcb');
    }
  }

  lemma SameTasks(r: nat, tasks: seq<Option<Thread>>, tasks': seq<Option<Thread>>, tcb: map<Thread, Tcb>,
            tcb': map<Thread, Tcb>)
    requires TasksOk(r, tasks, tcb) && (tasks' == tasks || tasks' == []) && tcb'.Keys == tcb.Keys
    requires forall u | u in tcb :: tcb'[u].pid == tcb[u].pid
    ensures TasksOk(r, tasks', tcb')
  {
  }

  lemma DeadThread(place: Places, tcb: map<Thread, Tcb>, procs: map<nat, Pcb>, t: Thread, place': Places,
            tcb': map<Thread, Tcb>, u: Thread)
    requires place.Keys == tcb.Keys == place'.Keys == tcb'.Keys && t in tcb && u in tcb && tcb[t].pid in procs
    requires ThreadOk(u, place, tcb, procs) && tcb'[u].pid == tcb[u].pid && tcb'[u].relock == tcb[u].relock
    requires u == t ==> place'[u] == Nowhere
    requires u != t ==> tcb'[u] == tcb[u] && place'[u] != OnCpu
    requires u != t && place'[u] != place[u] ==> tcb[u].pid == tcb[t].pid && place'[u] == Nowhere
    requires u in ThreadsOf(procs[tcb[t].pid].tasks) ==> place'[u] != InReady && place'[u] != InTimers
    ensures ThreadOk(u, place', tcb', procs[tcb[t].pid := Pcb(true, [])])
  {
    var p := tcb[t].pid;
    if u != t && tcb[u].pid == p && !procs[p].zombie && tcb[u].exitCode.None? {
      assert procs[p].tasks[tcb[u].tid] == Some(u);
      assert u in ThreadsOf(procs[p].tasks);
    }
  }

  lemma {:induction false} ListedOnce(s: seq<Thread>, place: Places, p: Place, t: Thread)
    requires Listed(s, place, p) && t in place
    ensures multiset(s)[t] == if place[t] == p then 1 else 0
  {
    if t in s {
      var i :| 0 <= i < |s| && s[i] == t;
      assert s == s[..i] + [t] + s[i + 1..];
      assert t !in s[..i] && t !in s[i + 1..];
    }
  }

  lemma {:induction false} ForwardFacts(a: Snap, b: Snap)
    requires Forward(a, b)
    ensures a.trace <= b.trace
    ensures forall i | |a.trace| <= i < |b.trace| ::
        b.trace[i] in b.tcb && (b.tcb[b.trace[i]].pid in a.procs ==> !a.procs[b.tcb[b.trace[i]].pid].zombie)
    ensures forall k | 0 <= k < |a.ready| && |a.trace| + k < |b.trace| ::
        Dead(a.ready[k], b) || a.ready[k] in b.trace[|a.trace|..|a.trace| + k + 1]
  {
    forall k | 0 <= k < |a.ready| && |a.trace| + k < |b.trace| && !Dead(a.ready[k], b)
      ensures a.ready[k] in b.trace[|a.trace|..|a.trace| + k + 1] {
      assert Served(a.ready[k], k, |a.trace|, b);
      var i :| |a.trace| <= i <= |a.trace| + k && i < |b.trace| && b.trace[i] == a.ready[k];
      assert b.trace[|a.trace|..|a.trace| + k + 1][i - |a.trace|] == a.ready[k];
    }
  }

  lemma SemaphoreFacts(queues: map<QueueId, seq<Thread>>, counts: map<QueueId, int>, locked: map<QueueId, bool>,
            q: QueueId)
    requires PrimsOk(queues, counts, locked) && q in counts
    ensures q.kind == OfSemaphore && q in queues && |queues[q]| == if counts[q] < 0 then -counts[q] else 0
  {
  }

  lemma SemaphoreSet(queues: map<QueueId, seq<Thread>>, counts: map<QueueId, int>, locked: map<QueueId, bool>,
                     q: QueueId, c: int, waiting: seq<Thread>)
    requires PrimsOk(queues, counts, locked) && q.kind == OfSemaphore && |waiting| == if c < 0 then -c else 0
    ensures PrimsOk(queues[q := waiting], counts[q := c], locked)
  {
  }

  lemma MutexFacts(queues: map<QueueId, seq<Thread>>, counts: map<QueueId, int>, locked: map<QueueId, bool>, q: QueueId)
    requires PrimsOk(queues, counts, locked) && q in locked
    ensures q.kind == OfMutex && q in queues && (!locked[q] ==> queues[q] == [])
  {
  }

  lemma MutexSet(queues: map<QueueId, seq<Thread>>, counts: map<QueueId, int>, locked: map<QueueId, bool>,
                 q: QueueId, l: bool, waiting: seq<Thread>)
    requires PrimsOk(queues, counts, locked) && q.kind == OfMutex && (!l ==> waiting == [])
    ensures PrimsOk(queues[q := waiting], counts, locked[q := l])
  {
  }

  lemma CondvarSet(queues: map<QueueId, seq<Thread>>, counts: map<QueueId, int>, locked: map<QueueId, bool>,
                   q: QueueId, waiting: seq<Thread>)
    requires PrimsOk(queues, counts, locked) && q.kind == OfCondvar
    ensures PrimsOk(queues[q := waiting], counts, locked)
  {
  }

  class TaskSystem {
    var current: Option<Thread>
    var ready: seq<Thread>
    var timers: seq<Timer>
    var queues: map<QueueId, seq<Thread>>
    var counts: map<QueueId, int>
    var locked: map<QueueId, bool>
    var tcb: map<Thread, Tcb>
    var procs: map<nat, Pcb>
    ghost var place: Places
    ghost var trace: seq<Thread>

    function State(): World
      reads this
    {
      World(current, ready, timers, queues, counts, locked, tcb, procs)
    }

    ghost predicate Placed()
      reads this
    {
      PlacedAt(current, ready, Sleepers(timers), queues, place) && place.Keys == tcb.Keys
    }

    /** All threads are where they should be. */
    ghost predicate Core()
      reads this
    {
      Placed() && ThreadsOk(place, tcb, procs) && ListsOk(tcb, procs, locked.Keys) && locked.Keys <= queues.Keys
    }

    ghost predicate Valid()
      reads this
    {
      Core() && PrimsOk(queues, counts, locked)
    }

    /** `TaskManager::add` */
    method Add(task: Thread)
      requires Placed() && task in place && place[task] == Nowhere
      modifies `ready, `place
      ensures Placed() && ready == old(ready) + [task] && place == old(place)[task := InReady]
    {
      hide PlacedAt;
      JoinReady(current, ready, Sleepers(timers), queues, place, task);
      ready := ready + [task];
      place := place[task := InReady];
    }

    /** `TaskManager::fetch` */
    method Fetch() returns (task: Option<Thread>)
      requires Placed()
      modifies `ready, `place
      ensures Placed()
      ensures old(ready) == [] ==> task == None && ready == [] && place == old(place)
      ensures old(ready) != [] ==> task == Some(old(ready)[0]) && ready == old(ready)[1..]
      ensures old(ready) != [] ==>
          task.value in old(place) && old(place)[task.value] == InReady && place == old(place)[task.value := Nowhere]
    {
      hide PlacedAt;
      if ready == [] {
        return None;
      }
      LeaveReady(current, ready, Sleepers(timers), queues, place, 0);
      assert ready[..0] + ready[1..] == ready[1..];
      var t := ready[0];
      task := Some(t);
      ready := ready[1..];
      place := place[t := Nowhere];
    }

    /** `TaskManager::remove` */
    method Remove(task: Thread)
      requires Placed() && task in place
      modifies `ready, `place
      ensures Placed()
      ensures task !in old(ready) ==> ready == old(ready)
      ensures forall i | 0 <= i < |old(ready)| && old(ready)[i] == task ::
          ready == old(ready)[..i] + old(ready)[i + 1..]
      ensures place == if old(place)[task] == InReady then old(place)[task := Nowhere] else old(place)
    {
      hide Listed;
      var id := 0;
      while id < |ready| && ready[id] != task
        invariant 0 <= id <= |ready| && forall k | 0 <= k < id :: ready[k] != task
      {
        id := id + 1;
      }
      NotListed(ready, place, InReady, task);
      OnlyAt(ready, place, InReady, task, id);
      hide PlacedAt;
      if id < |ready| {
        LeaveReady(current, ready, Sleepers(timers), queues, place, id);
        ready := ready[..id] + ready[id + 1..];
        place := place[task := Nowhere];
      }
    }

    /** `wakeup_task` */
    method Wakeup(task: Thread)
      requires Placed() && task in place && place[task] == Nowhere
      modifies `ready, `place, `tcb
      ensures Placed() && ready == old(ready) + [task] && place == old(place)[task := InReady]
      ensures tcb == old(tcb)[task := old(tcb)[task].(status := Ready)]
    {
      hide PlacedAt;
      tcb := tcb[task := tcb[task].(status := Ready)];
      Add(task);
    }

    /** `Processor::take_current` */
    method TakeCurrent() returns (task: Thread)
      requires Placed() && current.Some?
      modifies `current, `place
      ensures Placed() && task == old(current).value && current == None
      ensures task in old(place) && old(place)[task] == OnCpu && place == old(place)[task := Nowhere]
    {
      hide PlacedAt;
      LeaveCpu(current, ready, Sleepers(timers), queues, place);
      task := current.value;
      current := None;
      place := place[task := Nowhere];
    }

    /** The loop of `remove_timer`. */
    static method Rebuilt(timers: seq<Timer>, task: Thread) returns (temp: seq<Timer>)
      ensures temp == Cancelled(timers, task)
    {
      temp := [];
      for i := 0 to |timers|
        invariant temp == Cancelled(timers[..i], task)
      {
        assert timers[..i + 1][..i] == timers[..i];
        if task != timers[i].task {
          temp := temp + [timers[i]];
        }
      }
      assert timers[..|timers|] == timers;
    }

    /** `remove_timer`: the heap is drained and rebuilt. */
    method RemoveTimer(task: Thread)
      requires Placed() && task in place
      modifies `timers, `place
      ensures Placed()
      ensures forall x :: multiset(timers)[x] == if x.task == task then 0 else multiset(old(timers))[x]
      ensures place == if old(place)[task] == InTimers then old(place)[task := Nowhere] else old(place)
    {
      hide PlacedAt, Cancelled;
      var temp := Rebuilt(timers, task);
      CancelledCount(timers, task);
      CancelTimer(current, ready, timers, queues, place, task);
      timers := temp;
      if place[task] == InTimers {
        place := place[task := Nowhere];
      }
    }

    ghost function Now(): Snap
      reads this
    {
      Snap(tcb, procs, ready, trace)
    }

    /** One expired timer: the thread is woken and the timer popped. */
    method WakeSleeper(i: nat)
      requires Valid() && i < |timers|
      modifies `ready, `place, `tcb, `timers
      ensures Valid() && ready == old(ready) + [old(timers)[i].task] &&
          timers == old(timers)[..i] + old(timers)[i + 1..]
      ensures Quiet(old(Now()), Now()) && tcb == SetStatus(old(tcb), old(timers)[i].task, Ready)
    {
      hide PlacedAt, ThreadsOk, ListsOk, PrimsOk;
      var t := timers[i].task;
      ghost var sleepers := Sleepers(timers);
      LeaveTimers(current, ready, sleepers, queues, place, i);
      LiveThread(place, tcb, procs, t);
      Relocated(place, tcb, procs, locked.Keys, t, InReady, tcb[t].(status := Ready));
      timers := timers[..i] + timers[i + 1..];
      assert Sleepers(timers) == sleepers[..i] + sleepers[i + 1..];
      ghost var place0 := place;
      place := place[t := Nowhere];
      Wakeup(t);
      assert place == place0[t := InReady];
    }

    /** `check_timer`: every expired timer, in order of expiry, and no other. */
    method CheckTimer(now: nat) returns (ghost woken: seq<Timer>)
      requires Valid()
      modifies `ready, `place, `tcb, `timers
      ensures Valid() && Quiet(old(Now()), Now()) && ready == old(ready) + Sleepers(woken)
      ensures Fired(old(timers), woken, timers, now) && forall x | x in timers :: x.expireMs > now
      ensures tcb == Awake(old(tcb), Sleepers(woken))
    {
      hide TaskSystem.Valid, Fired, Quiet, Earliest, Awake, SetStatus;
      woken := [];
      NoneFired(timers, now);
      AwakeNone(tcb);
      QuietSelf(Now());
      while timers != []
        invariant Valid() && Quiet(old(Now()), Now()) && ready == old(ready) + Sleepers(woken)
        invariant Fired(old(timers), woken, timers, now) && tcb == Awake(old(tcb), Sleepers(woken))
        decreases |timers|
      {
        SomeEarliest(timers);
        var i :| 0 <= i < |timers| && Earliest(timers, i);
        if timers[i].expireMs > now {
          LateOnes(timers, i, now);
          break;
        }
        ghost var before, timer := Now(), timers[i];
        FireNext(old(timers), woken, timers, now, i);
        WakeSleeper(i);
        QuietTrans(old(Now()), before, Now());
        assert Sleepers(woken + [timer]) == Sleepers(woken) + [timer.task];
        AwakeMore(old(tcb), Sleepers(woken), timer.task);
        woken := woken + [timer];
      }
    }

    /** `suspend_current_and_run_next` */
    method Suspend()
      requires Valid() && current.Some?
      modifies `current, `ready, `place, `tcb
      ensures Valid() && Quiet(old(Now()), Now()) && current == None && ready == old(ready) + [old(current).value]
      ensures State() == Requeue(old(State()))
    {
      hide PlacedAt, ThreadsOk, ListsOk, PrimsOk;
      LeaveCpu(current, ready, Sleepers(timers), queues, place);
      ghost var place0 := place;
      var task := TakeCurrent();
      LiveThread(place0, tcb, procs, task);
      Relocated(place0, tcb, procs, locked.Keys, task, InReady, tcb[task].(status := Ready));
      tcb := tcb[task := tcb[task].(status := Ready)];
      Add(task);
      assert place == place0[task := InReady];
    }

    /** The timer interrupt. */
    method Tick(now: nat) returns (ghost woken: seq<Timer>)
      requires Valid() && current.Some?
      modifies `current, `ready, `place, `tcb, `timers
      ensures Valid() && Quiet(old(Now()), Now()) && current == None &&
          ready == old(ready) + Sleepers(woken) + [old(current).value]
      ensures Fired(old(timers), woken, timers, now) && forall x | x in timers :: x.expireMs > now
      ensures Ticked(old(State()), now, State(), woken)
    {
      hide TaskSystem.Valid, Fired;
      woken := CheckTimer(now);
      Suspend();
    }

    /** The current thread joins a wait queue and gives up the processor. */
    method BlockOn(q: QueueId)
      requires Core() && current.Some? && q in queues && current.value in tcb && q.pid == tcb[current.value].pid
      modifies `current, `queues, `place, `tcb
      ensures Core() && Quiet(old(Now()), Now()) && current == None &&
          queues == old(queues)[q := old(queues)[q] + [old(current).value]]
      ensures place == old(place)[old(current).value := InQueue(q)] && State() == Block(old(State()), q)
      ensures tcb == old(tcb)[old(current).value := old(tcb)[old(current).value].(status := Blocked)]
    {
      hide PlacedAt, ThreadsOk, ListsOk, PrimsOk;
      LeaveCpu(current, ready, Sleepers(timers), queues, place);
      ghost var place0 := place;
      var task := TakeCurrent();
      LiveThread(place0, tcb, procs, task);
      Relocated(place0, tcb, procs, locked.Keys, task, InQueue(q), tcb[task].(status := Blocked));
      JoinQueue(current, ready, Sleepers(timers), queues, place, q, task);
      queues := queues[q := queues[q] + [task]];
      tcb := tcb[task := tcb[task].(status := Blocked)];
      place := place[task := InQueue(q)];
      assert place == place0[task := InQueue(q)];
    }

    /** `sys_sleep` */
    method Sleep(now: nat, ms: nat)
      requires Valid() && current.Some?
      modifies `current, `timers, `place, `tcb
      ensures Valid() && Quiet(old(Now()), Now()) && current == None &&
          timers == old(timers) + [Timer(now + ms, old(current).value)]
      ensures State() == Leave(old(State()), Blocked).(timers := timers)
    {
      hide PlacedAt, ThreadsOk, ListsOk, PrimsOk;
      LeaveCpu(current, ready, Sleepers(timers), queues, place);
      ghost var place0 := place;
      var task := TakeCurrent();
      LiveThread(place0, tcb, procs, task);
      Relocated(place0, tcb, procs, locked.Keys, task, InTimers, tcb[task].(status := Blocked));
      JoinTimers(current, ready, Sleepers(timers), queues, place, task);
      assert Sleepers(timers + [Timer(now + ms, task)]) == Sleepers(timers) + [task];
      timers := timers + [Timer(now + ms, task)];
      tcb := tcb[task := tcb[task].(status := Blocked)];
      place := place[task := InTimers];
      assert place == place0[task := InTimers];
    }

    /** The first waiter of a queue of a live process is woken. */
    method WakeFirst(q: QueueId)
      requires Core() && q in queues && queues[q] != [] && q.pid in procs && !procs[q.pid].zombie
      modifies `queues, `ready, `place, `tcb
      ensures Core() && Quiet(old(Now()), Now()) && queues == old(queues)[q := old(queues)[q][1..]] &&
          ready == old(ready) + [old(queues)[q][0]]
      ensures State() == Wake(old(State()), q)
      ensures current.Some? ==> current.value in tcb && tcb[current.value] == old(tcb)[current.value]
    {
      hide PlacedAt, ThreadsOk, ListsOk, PrimsOk, Wake, Quiet, StatusFits;
      ghost var a, w := Now(), State();
      var t := queues[q][0];
      LeaveQueue(current, ready, Sleepers(timers), queues, place, q);
      if current.Some? { LeaveCpu(current, ready, Sleepers(timers), queues, place); }
      LiveThread(place, tcb, procs, t);
      Relocated(place, tcb, procs, locked.Keys, t, InReady, tcb[t].(status := Ready));
      ghost var place0 := place;
      queues := queues[q := queues[q][1..]];
      place := place[t := Nowhere];
      Wakeup(t);
      assert place == place0[t := InReady];
      WakeIs(w, q, State());
      OneChanged(a, Now(), t);
    }

    /** The processor is given to a thread just taken from the ready queue. */
    method Seat(t: Thread, ghost place0: Places)
      requires Placed() && current == None && locked.Keys <= queues.Keys
      requires ThreadsOk(place0, tcb, procs) && ListsOk(tcb, procs, locked.Keys)
      requires t in tcb && t in place0 && place0[t] == InReady && place == place0[t := Nowhere]
      modifies `current, `place, `tcb
      ensures Core() && current == Some(t) && tcb == old(tcb)[t := old(tcb)[t].(status := Running)]
    {
      hide PlacedAt, ThreadsOk, ListsOk, PrimsOk;
      LiveThread(place0, tcb, procs, t);
      Relocated(place0, tcb, procs, locked.Keys, t, OnCpu, tcb[t].(status := Running));
      JoinCpu(ready, Sleepers(timers), queues, place, t);
      tcb := tcb[t := tcb[t].(status := Running)];
      current := Some(t);
      place := place[t := OnCpu];
      assert place == place0[t := OnCpu];
    }

    /** `run_tasks`, one round: the front of the ready queue gets the processor. */
    method Dispatch()
      requires Valid() && current == None
      modifies `current, `ready, `place, `tcb, `trace
      ensures Valid() && Forward(old(Now()), Now())
      ensures old(ready) == [] ==> current == None && ready == [] && trace == old(trace) && tcb == old(tcb)
      ensures old(ready) != [] ==>
          current == Some(old(ready)[0]) && ready == old(ready)[1..] && trace == old(trace) + [old(ready)[0]]
      ensures old(ready) != [] ==> tcb == SetStatus(old(tcb), old(ready)[0], Running)
    {
      hide PlacedAt, ThreadsOk, ListsOk, PrimsOk, Forward, Quiet;
      ghost var place0, a := place, Now();
      var task := Fetch();
      if task.Some? {
        LiveThread(place0, tcb, procs, task.value);
        Seat(task.value, place0);
        trace := trace + [task.value];
        DispatchForward(a, Now());
      } else {
        QuietSelf(a);
        QuietForward(a, Now());
      }
    }

    /** The queue belongs to the process of the running thread. */
    ghost predicate Mine(q: QueueId)
      reads this
    {
      current.Some? && current.value in tcb && tcb[current.value].pid == q.pid && q in queues
    }

    lemma CurrentLive()
      requires Core() && current.Some?
      ensures current.value in tcb && tcb[current.value].pid in procs && !procs[tcb[current.value].pid].zombie
      ensures tcb[current.value].exitCode.None? && place[current.value] == OnCpu
      ensures tcb[current.value].relock.Some? ==>
          Mine(tcb[current.value].relock.value) && tcb[current.value].relock.value in locked
    {
      hide Listed;
      LiveThread(place, tcb, procs, current.value);
    }

    /** `MutexBlocking::lock` */
    method Lock(q: QueueId)
      requires Valid() && Mine(q) && q in locked
      modifies `current, `queues, `place, `tcb, `locked
      ensures Valid() && Quiet(old(Now()), Now()) && locked == old(locked)[q := true]
      ensures old(locked)[q] ==> current == None && queues == old(queues)[q := old(queues)[q] + [old(current).value]]
      ensures old(locked)[q] ==> tcb == old(tcb)[old(current).value := old(tcb)[old(current).value].(status := Blocked)]
      ensures !old(locked)[q] ==> current == old(current) && queues == old(queues) && tcb == old(tcb)
      ensures State() == Acquire(old(State()), q)
    {
      hide PlacedAt, ThreadsOk, ListsOk, PrimsOk;
      MutexFacts(queues, counts, locked, q);
      MutexSet(queues, counts, locked, q, true, queues[q] + if locked[q] then [current.value] else []);
      if locked[q] {
        BlockOn(q);
        assert locked == locked[q := true];
      } else {
        assert queues[q] + [] == queues[q];
        assert locked[q := true].Keys == locked.Keys && queues[q := queues[q]] == queues;
        locked := locked[q := true];
      }
    }

    /** `MutexBlocking::unlock`; the source asserts that the mutex is locked. */
    method Unlock(q: QueueId)
      requires Valid() && Mine(q) && q in locked && locked[q]
      modifies `queues, `ready, `place, `tcb, `locked
      ensures Valid() && Quiet(old(Now()), Now()) && Mine(q) && locked.Keys == old(locked).Keys &&
          queues.Keys == old(queues).Keys
      ensures tcb[current.value] == old(tcb)[current.value]
      ensures old(queues)[q] != [] ==>
          queues == old(queues)[q := old(queues)[q][1..]] && ready == old(ready) + [old(queues)[q][0]] &&
          locked == old(locked)
      ensures old(queues)[q] == [] ==> queues == old(queues) && ready == old(ready) && locked == old(locked)[q := false]
      ensures State() == Release(old(State()), q)
    {
      hide PlacedAt, ThreadsOk, ListsOk, PrimsOk;
      CurrentLive();
      MutexFacts(queues, counts, locked, q);
      if queues[q] != [] {
        MutexSet(queues, counts, locked, q, true, queues[q][1..]);
        assert locked[q := true] == locked;
        WakeFirst(q);
      } else {
        MutexSet(queues, counts, locked, q, false, []);
        assert locked[q := false].Keys == locked.Keys && queues[q := []] == queues;
        locked := locked[q := false];
      }
    }

    /** `Semaphore::up` */
    method Up(q: QueueId)
      requires Valid() && Mine(q) && q in counts
      modifies `queues, `ready, `place, `tcb, `counts
      ensures Valid() && Quiet(old(Now()), Now()) && counts == old(counts)[q := old(counts)[q] + 1]
      ensures old(counts)[q] < 0 ==> |old(queues)[q]| == -old(counts)[q]
      ensures old(counts)[q] < 0 ==>
          queues == old(queues)[q := old(queues)[q][1..]] && ready == old(ready) + [old(queues)[q][0]]
      ensures old(counts)[q] >= 0 ==> queues == old(queues) && ready == old(ready)
      ensures State() == Post(old(State()), q)
    {
      hide PlacedAt, ThreadsOk, ListsOk, PrimsOk;
      CurrentLive();
      SemaphoreFacts(queues, counts, locked, q);
      SemaphoreSet(queues, counts, locked, q, counts[q] + 1, if counts[q] < 0 then queues[q][1..] else queues[q]);
      assert queues[q := queues[q]] == queues;
      counts := counts[q := counts[q] + 1];
      if counts[q] <= 0 {
        if queues[q] != [] {
          WakeFirst(q);
        }
      }
    }

    /** `Semaphore::down` */
    method Down(q: QueueId)
      requires Valid() && Mine(q) && q in counts
      modifies `current, `queues, `place, `tcb, `counts
      ensures Valid() && Quiet(old(Now()), Now()) && counts == old(counts)[q := old(counts)[q] - 1]
      ensures old(counts)[q] <= 0 ==>
          current == None && queues == old(queues)[q := old(queues)[q] + [old(current).value]]
      ensures old(counts)[q] > 0 ==> current == old(current) && queues == old(queues)
      ensures State() == Take(old(State()), q)
    {
      hide PlacedAt, ThreadsOk, ListsOk, PrimsOk;
      SemaphoreFacts(queues, counts, locked, q);
      SemaphoreSet(queues, counts, locked, q, counts[q] - 1,
        queues[q] + if counts[q] <= 0 then [current.value] else []);
      assert queues[q] + [] == queues[q] && queues[q := queues[q]] == queues;
      counts := counts[q := counts[q] - 1];
      if counts[q] < 0 {
        BlockOn(q);
      }
    }

    /** `Condvar::signal` */
    method Signal(q: QueueId)
      requires Valid() && Mine(q) && q.kind == OfCondvar
      modifies `queues, `ready, `place, `tcb
      ensures Valid() && Quiet(old(Now()), Now())
      ensures old(queues)[q] != [] ==>
          queues == old(queues)[q := old(queues)[q][1..]] && ready == old(ready) + [old(queues)[q][0]]
      ensures old(queues)[q] == [] ==> queues == old(queues) && ready == old(ready)
      ensures State() == Wake(old(State()), q)
    {
      hide PlacedAt, ThreadsOk, ListsOk, PrimsOk;
      CurrentLive();
      if queues[q] != [] {
        CondvarSet(queues, counts, locked, q, queues[q][1..]);
        WakeFirst(q);
      }
    }

    /** Where the running thread goes on inside `Condvar::wait`. */
    method SetRelock(relock: Option<QueueId>)
      requires Valid() && current.Some? && current.value in tcb &&
          (relock.Some? ==> Mine(relock.value) && relock.value in locked)
      modifies `tcb
      ensures Valid() && Quiet(old(Now()), Now()) &&
          tcb == old(tcb)[current.value := old(tcb)[current.value].(relock := relock)]
    {
      hide PlacedAt, ThreadsOk, ListsOk, PrimsOk;
      CurrentLive();
      var t := current.value;
      LiveThread(place, tcb, procs, t);
      Relocated(place, tcb, procs, locked.Keys, t, OnCpu, tcb[t].(relock := relock));
      assert place[t := OnCpu] == place;
      tcb := tcb[t := tcb[t].(relock := relock)];
    }

    /** `Condvar::wait` up to the switch: when any other thread runs next, the caller is queued. */
    method CondWait(q: QueueId, mutex: QueueId)
      requires Valid() && Mine(q) && Mine(mutex) && q.kind == OfCondvar && mutex in locked && locked[mutex]
      modifies `current, `queues, `ready, `place, `tcb, `locked
      ensures Valid() && Quiet(old(Now()), Now()) && current == None
      ensures q in queues && queues[q] == old(queues)[q] + [old(current).value]
      ensures mutex in locked && (locked[mutex] <==> old(queues)[mutex] != [])
      ensures var t := old(current).value; t in tcb && tcb[t] == old(tcb)[t].(status := Blocked, relock := Some(mutex))
      ensures mutex in queues && queues == old(queues)[q := queues[q]][mutex := queues[mutex]]
      ensures old(queues)[mutex] == [] ==> queues[mutex] == [] && ready == old(ready)
      ensures old(queues)[mutex] != [] ==>
          queues[mutex] == old(queues)[mutex][1..] && ready == old(ready) + [old(queues)[mutex][0]]
      ensures State() == Await(old(State()), q, mutex)
    {
      hide TaskSystem.Core, PrimsOk, Quiet;
      ghost var a := Now();
      MutexFacts(queues, counts, locked, mutex);
      Unlock(mutex);
      ghost var b := Now();
      SetRelock(Some(mutex));
      ghost var c := Now();
      CondvarSet(queues, counts, locked, q, queues[q] + [current.value]);
      BlockOn(q);
      QuietTrans(a, b, c);
      QuietTrans(a, c, Now());
    }

    /** The rest of `Condvar::wait`, as soon as the woken thread runs. */
    method Relock()
      requires Valid() && current.Some? && current.value in tcb && tcb[current.value].relock.Some?
      modifies `current, `queues, `place, `tcb, `locked
      ensures Valid() && Quiet(old(Now()), Now())
      ensures var t := old(current).value; var q := old(tcb)[t].relock.value;
              && t in tcb && tcb[t].relock == None && q in old(locked) && q in old(queues) &&
                locked == old(locked)[q := true]
              && (if old(locked)[q] then current == None &&
                queues == old(queues)[q := old(queues)[q] + [t]] else current == Some(t) && queues == old(queues))
      ensures State() == Acquire(Remember(old(State()), None), old(tcb)[old(current).value].relock.value)
    {
      hide PlacedAt, ThreadsOk, ListsOk, PrimsOk;
      CurrentLive();
      var q := tcb[current.value].relock.value;
      SetRelock(None);
      Lock(q);
    }

    /** Creating a mutex, a semaphore or a condition variable under an unused number. */
    method Create(kind: Kind, id: nat, count: nat) returns (q: QueueId)
      requires Valid() && current.Some? && current.value in tcb && QueueId(tcb[current.value].pid, kind, id) !in queues
      modifies `queues, `locked, `counts
      ensures Valid() && q == QueueId(tcb[current.value].pid, kind, id) && queues == old(queues)[q := []]
      ensures kind == OfMutex ==> locked == old(locked)[q := false]
      ensures kind == OfSemaphore ==> counts == old(counts)[q := count]
      ensures State() == NewObject(old(State()), q, count)
    {
      hide PlacedAt, ThreadsOk, PrimsOk;
      q := QueueId(tcb[current.value].pid, kind, id);
      NewQueue(current, ready, Sleepers(timers), queues, place, q);
      match kind {
        case OfMutex => MutexSet(queues, counts, locked, q, false, []);
        case OfSemaphore => SemaphoreSet(queues, counts, locked, q, count, []);
        case OfCondvar => CondvarSet(queues, counts, locked, q, []);
      }
      queues := queues[q := []];
      match kind {
        case OfMutex => locked := locked[q := false];
        case OfSemaphore => counts := counts[q := count];
        case OfCondvar =>
      }
    }

    /** The part of `ProcessControlBlock::new` and `fork` that concerns scheduling. */
    method NewProcess(pid: nat, task: Thread)
      requires Valid() && pid !in procs && task !in tcb
      modifies `ready, `place, `tcb, `procs
      ensures Valid() && Quiet(old(Now()), Now()) && ready == old(ready) + [task]
      ensures tcb == old(tcb)[task := Tcb(pid, 0, Ready, None, None)] &&
          procs == old(procs)[pid := Pcb(false, [Some(task)])]
    {
      hide PlacedAt, ThreadsOk, ListsOk, PrimsOk;
      var c := Tcb(pid, 0, Ready, None, None);
      PlaceKeys();
      Born(current, ready, Sleepers(timers), queues, place, task);
      NewThread(place, tcb, procs, locked.Keys, task, c, [Some(task)]);
      ghost var place0 := place;
      place := place[task := Nowhere];
      tcb := tcb[task := c];
      procs := procs[pid := Pcb(false, [Some(task)])];
      Add(task);
      assert place == place0[task := InReady];
    }

    lemma PlaceKeys()
      requires Core()
      ensures place.Keys == tcb.Keys
    {
    }

    /** `sys_thread_create`; `tid` comes from the process's allocator. */
    method ThreadCreate(task: Thread, tid: nat)
      requires Valid() && current.Some? && task !in tcb && current.value in tcb &&
          FreeTid(tcb, tcb[current.value].pid, tid)
      modifies `ready, `place, `tcb, `procs
      ensures Valid() && Quiet(old(Now()), Now()) && ready == old(ready) + [task]
      ensures var pid := old(tcb)[old(current).value].pid;
              && tcb == old(tcb)[task := Tcb(pid, tid, Ready, None, None)] && pid in old(procs)
              && procs == old(procs)[pid := old(procs)[pid].(tasks := TaskSet(old(procs)[pid].tasks, tid, task))]
    {
      hide PlacedAt, ThreadsOk, ListsOk, PrimsOk;
      CurrentLive();
      var pid := tcb[current.value].pid;
      var c := Tcb(pid, tid, Ready, None, None);
      var tasks := SetTask(procs[pid].tasks, tid, task);
      Born(current, ready, Sleepers(timers), queues, place, task);
      NewThread(place, tcb, procs, locked.Keys, task, c, tasks);
      ghost var place0 := place;
      place := place[task := Nowhere];
      tcb := tcb[task := c];
      procs := procs[pid := Pcb(false, tasks)];
      Add(task);
      assert place == place0[task := InReady];
    }

    /** `sys_waittid` */
    method WaitTid(tid: nat) returns (r: int)
      requires Valid() && current.Some? && current.value in tcb && tcb[current.value].pid in procs
      requires tid < |procs[tcb[current.value].pid].tasks|
      modifies `procs
      ensures Valid() && Quiet(old(Now()), Now())
      ensures var pid := tcb[current.value].pid; var tasks := old(procs)[pid].tasks;
              if tid == tcb[current.value].tid || tasks[tid] == None then r == -1 && procs == old(procs)
              else tasks[tid].value in tcb && (if tcb[tasks[tid].value].exitCode.Some?
                     then r == tcb[tasks[tid].value].exitCode.value &&
                       procs == old(procs)[pid := old(procs)[pid].(tasks := tasks[tid := None])]
                     else r == -2 && procs == old(procs))
    {
      hide PlacedAt, ThreadsOk, PrimsOk;
      var pid := tcb[current.value].pid;
      if tcb[current.value].tid == tid {
        return -1;
      }
      var waited := procs[pid].tasks[tid];
      if waited.None? {
        return -1;
      }
      assert TasksOk(pid, procs[pid].tasks, tcb);
      if tcb[waited.value].exitCode.Some? {
        TaskCleared(place, tcb, procs, locked.Keys, pid, tid);
        procs := procs[pid := procs[pid].(tasks := procs[pid].tasks[tid := None])];
        r := tcb[waited.value].exitCode.value;
      } else {
        r := -2;
      }
    }

    /** `remove_inactive_task` for every thread the process lists. */
    method RemoveInactive(tasks: seq<Option<Thread>>)
      requires Placed() && current == None
      requires forall i | 0 <= i < |tasks| && tasks[i].Some? :: tasks[i].value in place
      modifies `ready, `timers, `place
      ensures Placed() && ready == Keep(old(ready), ThreadsOf(tasks))
      ensures OthersTimed(old(timers), timers, ThreadsOf(tasks))
      ensures place.Keys == old(place).Keys
      ensures forall u | u in place :: place[u] == old(place)[u] || (u in ThreadsOf(tasks) && place[u] == Nowhere)
      ensures forall u | u in ThreadsOf(tasks) :: place[u] != InReady && place[u] != InTimers
    {
      hide PlacedAt, Cancelled, Keep, OthersTimed;
      NothingKept(ready, timers);
      assert tasks[..0] == [];
      for i := 0 to |tasks|
        invariant Placed() && ready == Keep(old(ready), ThreadsOf(tasks[..i]))
        invariant OthersTimed(old(timers), timers, ThreadsOf(tasks[..i]))
        invariant place.Keys == old(place).Keys
        invariant forall u | u in place && place[u] != old(place)[u] ::
            u in ThreadsOf(tasks[..i]) && place[u] == Nowhere
        invariant forall u | u in ThreadsOf(tasks[..i]) :: u in place && place[u] != InReady && place[u] != InTimers
      {
        OneMoreTask(tasks, i);
        if tasks[i].Some? {
          ghost var timers0, gone := timers, ThreadsOf(tasks[..i]);
          KeepTwice(old(ready), gone, {tasks[i].value});
          RemoveOne(tasks[i].value);
          TimedTwice(old(timers), timers0, timers, gone, tasks[i].value);
        }
      }
      assert tasks[..|tasks|] == tasks;
    }

    /** `remove_inactive_task` */
    method RemoveOne(task: Thread)
      requires Placed() && task in place
      modifies `ready, `timers, `place
      ensures Placed() && ready == Keep(old(ready), {task})
      ensures forall x :: multiset(timers)[x] == if x.task == task then 0 else multiset(old(timers))[x]
      ensures place == old(place)[task := place[task]] && place[task] != InReady && place[task] != InTimers
      ensures place[task] == old(place)[task] || place[task] == Nowhere
    {
      hide PlacedAt, Keep;
      ghost var ready0 := ready;
      ReadyDistinct();
      Remove(task);
      RemoveKeeps(ready0, task, ready);
      RemoveTimer(task);
    }

    lemma ReadyDistinct()
      requires Placed()
      ensures Distinct(ready)
    {
    }

    /** The end of the process whose main thread `task` has just left the processor. */
    method KillProcess(task: Thread, pid: nat, ghost place0: Places, ghost tcb0: map<Thread, Tcb>)
      requires Placed() && current == None && locked.Keys <= queues.Keys && task in tcb0 && pid == tcb0[task].pid &&
          pid in procs
      requires place0.Keys == tcb0.Keys && ThreadsOk(place0, tcb0, procs) && ListsOk(tcb0, procs, locked.Keys)
      requires place == place0[task := Nowhere] && task in tcb &&
          tcb == tcb0[task := tcb0[task].(exitCode := tcb[task].exitCode)]
      modifies `ready, `timers, `place, `procs
      ensures Core() && procs == old(procs)[pid := Pcb(true, [])]
      ensures ready == Keep(old(ready), Members(tcb0, pid)) && OthersTimed(old(timers), timers, Members(tcb0, pid))
    {
      hide PlacedAt, ThreadsOk, ListsOk, PrimsOk, Keep, OthersTimed, Members;
      OwnTasks(tcb0, procs, locked.Keys, pid);
      ghost var tasks := procs[pid].tasks;
      AllListed(place0, tcb0, procs, task, place, tasks);
      KeepSame(ready, ThreadsOf(tasks), Members(tcb0, pid));
      RemoveInactive(procs[pid].tasks);
      TimedSame(old(timers), timers, ThreadsOf(tasks), Members(tcb0, pid));
      NobodyOnCpu();
      MembersPid(tcb0, pid);
      ProcessDead(place0, tcb0, procs, locked.Keys, task, place, tcb);
      procs := procs[pid := Pcb(true, [])];
    }

    /** In a live process the threads in the ready queue and in the timers are listed. */
    lemma AllListed(place0: Places, tcb0: map<Thread, Tcb>, procs: map<nat, Pcb>, task: Thread, place: Places,
              tasks: seq<Option<Thread>>)
      requires Placed() && this.place == place && place == place0[task := Nowhere] && task in tcb0
      requires ThreadsOk(place0, tcb0, procs) && tcb0[task].pid in procs && tasks == procs[tcb0[task].pid].tasks
      requires ThreadsOf(tasks) <= Members(tcb0, tcb0[task].pid)
      ensures forall u | u in ready :: u in ThreadsOf(tasks) <==> u in Members(tcb0, tcb0[task].pid)
      ensures forall u | u in Sleepers(timers) :: u in ThreadsOf(tasks) <==> u in Members(tcb0, tcb0[task].pid)
    {
      forall u | (u in ready || u in Sleepers(timers)) && u in Members(tcb0, tcb0[task].pid)
        ensures u in ThreadsOf(tasks)
      {
        assert u in place && (place[u] == InReady || place[u] == InTimers);
        assert ThreadOk(u, place0, tcb0, procs);
        assert tasks[tcb0[u].tid] == Some(u);
      }
    }

    /** `exit_current_and_run_next`: when the main thread exits, its process is dead and none of its
        threads is running, ready or asleep; otherwise only the caller goes. */
    method Exit(exitCode: int)
      requires Valid() && current.Some? && current.value in tcb
      modifies `current, `ready, `timers, `place, `tcb, `procs
      ensures Valid() && Forward(old(Now()), Now()) && current == None &&
          tcb == old(tcb)[old(current).value := old(tcb)[old(current).value].(exitCode := Some(exitCode))]
      ensures var c := old(tcb)[old(current).value];
              if c.tid == 0
              then
                && procs == old(procs)[c.pid := Pcb(true, [])] && ready == Keep(old(ready), Members(tcb, c.pid))
                && (forall u | u in tcb && tcb[u].pid == c.pid :: u !in ready && u !in Sleepers(timers))
                && (forall x :: multiset(timers)[x] ==
                     if x.task in tcb && tcb[x.task].pid == c.pid then 0 else multiset(old(timers))[x])
              else procs == old(procs) && ready == old(ready) && timers == old(timers)
    {
      hide PlacedAt, ThreadsOk, ListsOk, PrimsOk, Forward, Thinned, Quiet, Members;
      CurrentLive();
      ghost var a, place0, tcb0 := Now(), place, tcb;
      var task := TakeCurrent();
      var pid, tid := tcb[task].pid, tcb[task].tid;
      if tid != 0 {
        LiveThread(place0, tcb, procs, task);
        Relocated(place0, tcb, procs, locked.Keys, task, Nowhere, tcb[task].(exitCode := Some(exitCode)));
      }
      tcb := tcb[task := tcb[task].(exitCode := Some(exitCode))];
      if tid == 0 {
        KillProcess(task, pid, place0, tcb0);
        SameMembers(tcb0, tcb, task, pid);
        KeepThinned(old(ready), Members(tcb, pid));
        KilledForward(a, Now(), task, pid);
        DeadNotQueued(pid);
        MembersTimed(old(timers), timers, tcb, pid);
      } else {
        ThreadGone(a, Now(), task);
      }
    }

    constructor ()
      ensures Valid() && current == None && ready == [] && trace == [] && tcb == map[] && procs == map[] &&
          queues == map[]
    {
      current, ready, timers, trace := None, [], [], [];
      queues, counts, locked, tcb, procs, place := map[], map[], map[], map[], map[], map[];
    }

    lemma HasQueue(q: QueueId)
      requires Valid() && (q in locked || q in counts)
      ensures q in queues
    {
    }

    /** A call on a mutex, a semaphore or a condition variable. */
    method PerformSync(step: Step, pid: nat)
      requires Valid() && Caller(State()) == Some(pid) && CallEnabled(State(), step, pid) && IsSync(step)
      modifies this
      ensures Valid() && Quiet(old(Now()), Now()) && State() == SyncEffect(old(State()), step)
    {
      hide TaskSystem.Valid, Quiet, Acquire, Release, Post, Take, Wake, Await, NewObject;
      QuietSelf(Now());
      match step {
        case CreateObject(kind, id, count) => var q := Create(kind, id, count);
        case LockMutex(id) => HasQueue(QueueId(pid, OfMutex, id)); Lock(QueueId(pid, OfMutex, id));
        case UnlockMutex(id) => HasQueue(QueueId(pid, OfMutex, id)); Unlock(QueueId(pid, OfMutex, id));
        case UpSemaphore(id) => HasQueue(QueueId(pid, OfSemaphore, id)); Up(QueueId(pid, OfSemaphore, id));
        case DownSemaphore(id) => HasQueue(QueueId(pid, OfSemaphore, id)); Down(QueueId(pid, OfSemaphore, id));
        case SignalCondvar(id) => Signal(QueueId(pid, OfCondvar, id));
        case WaitCondvar(id, mutex) => HasQueue(QueueId(pid, OfMutex, mutex)); CondWait(QueueId(pid, OfCondvar,
          id), QueueId(pid, OfMutex, mutex));
      }
    }

    /** A step that neither dispatches nor ends a thread; `r` is the result of `sys_waittid`. */
    method PerformCall(step: Step) returns (r: int)
      requires Valid() && Enabled(State(), step) && step != RunNext && !step.ExitThread?
      modifies this
      ensures Valid() && Quiet(old(Now()), Now()) && Effect(old(State()), step, State())
      ensures step.JoinThread? ==> r == JoinResult(old(State()), step.tid)
    {
      hide TaskSystem.Valid, Quiet, Acquire, Remember, Requeue, Leave, Ticked, SyncEffect, CallEnabled, FreeTid,
          TaskSet;
      r := 0;
      if IsSync(step) {
        PerformSync(step, Caller(State()).value);
      } else if step.StartProcess? {
        NewProcess(step.pid, step.task);
      } else if step == Resume {
        Relock();
      } else if step == Yield {
        Suspend();
      } else if step.ClockTick? {
        ghost var woken := Tick(step.now);
      } else if step.SleepFor? {
        Sleep(step.now, step.ms);
      } else if step.StartThread? {
        StartsThread(State(), step.task, step.tid);
        ThreadCreate(step.task, step.tid);
      } else {
        JoinsThread(State(), step.tid);
        r := WaitTid(step.tid);
      }
    }

    /** Any step of the kernel; a step that is not enabled does nothing. */
    method Perform(step: Step) returns (r: int)
      requires Valid()
      modifies this
      ensures Valid() && Forward(old(Now()), Now())
      ensures Next(old(State()), step, State()) && ResultOk(old(State()), step, r)
      ensures !Enabled(old(State()), step) ==> unchanged(this)
      ensures step == RunNext && old(current) == None && old(ready) != [] ==> trace == old(trace) + [old(ready)[0]]
    {
      hide TaskSystem.Valid, Quiet, Forward, Exited, CallEnabled, SetStatus, JoinResult;
      ghost var a, w := Now(), State();
      QuietSelf(a);
      r := 0;
      if !Enabled(State(), step) {
        QuietForward(a, Now());
      } else if step == RunNext {
        Dispatch();
      } else if step.ExitThread? {
        Exit(step.code);
        ExitEffect(w, step.code, State());
      } else {
        hide Effect;
        r := PerformCall(step);
        QuietForward(a, Now());
      }
    }

    /** Every run. `worlds` are the states in between, each of which comes from the one before by the
        step made, if that was enabled. Threads stay partitioned among their places (`Valid`); a
        process that is dead at the start is never dispatched; the thread at ready position `k` is
        dispatched within the next `k + 1` dispatches unless its process dies. Counts, locks and
        sleepers are functions of the calls made. */
    method Run(steps: seq<Step>) returns (results: seq<int>, ghost worlds: seq<World>)
      requires Valid()
      modifies this
      ensures Valid() && Forward(old(Now()), Now())
      ensures History(steps, worlds) && worlds[0] == old(State()) && worlds[|steps|] == State()
      ensures |results| == |steps| && forall i | 0 <= i < |steps| :: ResultOk(worlds[i], steps[i], results[i])
      ensures old(trace) <= trace
      ensures forall i | |old(trace)| <= i < |trace| ::
          trace[i] in tcb && (tcb[trace[i]].pid in old(procs) ==> !old(procs)[tcb[trace[i]].pid].zombie)
      ensures forall k | 0 <= k < |old(ready)| && |old(trace)| + k < |trace| ::
          Dead(old(ready)[k], Now()) || old(ready)[k] in trace[|old(trace)|..|old(trace)| + k + 1]
      ensures forall q | q in old(counts) ::
          q in counts && counts[q] == old(counts)[q] + Times(steps, worlds, Upped(q), |steps|)
                                      - Times(steps, worlds, Downed(q), |steps|)
      ensures forall q | q in old(locked) :: q in locked && (locked[q] <==>
          Engaged(old(State()), q) + Times(steps, worlds, Asked(q), |steps|) >
          Times(steps, worlds, GaveBack(q), |steps|))
      ensures forall x, i: nat | i < |steps| && Sleeps(worlds[i], steps[i], x) ::
          x in timers || Over(steps, worlds, x, i)
    {
      hide TaskSystem.Valid, Quiet, Forward, Next, PrimsOk, Happens, Sleeps, JoinResult, Over, Times, Engaged, Enabled;
      ghost var a := Now();
      QuietSelf(a);
      QuietForward(a, a);
      results, worlds := [], [State()];
      PrimsHold();
      for i := 0 to |steps|
        invariant Valid() && Forward(a, Now())
        invariant |results| == i && History(steps[..i], worlds) && worlds[0] == old(State()) && worlds[i] == State()
        invariant forall j | 0 <= j < i :: ResultOk(worlds[j], steps[j], results[j])
      {
        ghost var b, w := Now(), State();
        var r := Perform(steps[i]);
        ForwardTrans(a, b, Now());
        PrimsHold();
        HistoryMore(steps, i, worlds, State());
        worlds := worlds + [State()];
        results := results + [r];
      }
      assert steps[..|steps|] == steps;
      ForwardFacts(a, Now());
      RunLaws(steps, worlds);
    }

    lemma PrimsHold()
      requires Valid()
      ensures PrimsOk(queues, counts, locked)
    {
    }

    /** Once the main thread of a process has exited, no thread of the process is dispatched in any
        continuation. */
    method ExitThenRun(exitCode: int, steps: seq<Step>)
      requires Valid() && current.Some? && current.value in tcb && tcb[current.value].tid == 0
      modifies this
      ensures Valid() && old(trace) <= trace
      ensures forall i | |old(trace)| <= i < |trace| ::
          trace[i] in tcb && tcb[trace[i]].pid != old(tcb)[old(current).value].pid
    {
      hide TaskSystem.Valid, Forward;
      Exit(exitCode);
      var results;
      ghost var worlds;
      results, worlds := Run(steps);
    }

    /** How often `t` occurs at a place. */
    ghost function Count(p: Place, t: Thread): nat
      reads this
    {
      match p
      case OnCpu => if current == Some(t) then 1 else 0
      case InReady => multiset(ready)[t]
      case InTimers => multiset(Sleepers(timers))[t]
      case InQueue(q) => if q in queues then multiset(queues[q])[t] else 0
      case Nowhere => 0
    }

    /** A live thread of a live process is in exactly one place, exactly once, and its status says
        which; an exited thread is in none. */
    lemma Partition(t: Thread)
      requires Valid() && t in tcb
      ensures forall p :: Count(p, t) == if p == place[t] && p != Nowhere then 1 else 0
      ensures tcb[t].exitCode.Some? ==> place[t] == Nowhere
      ensures tcb[t].exitCode.None? && tcb[t].pid in procs && !procs[tcb[t].pid].zombie ==>
          place[t] != Nowhere && StatusFits(tcb[t].status, place[t])
    {
      assert ThreadOk(t, place, tcb, procs);
      forall p ensures Count(p, t) == if p == place[t] && p != Nowhere then 1 else 0 {
        match p
        case OnCpu =>
        case InReady => ListedOnce(ready, place, p, t);
        case InTimers => ListedOnce(Sleepers(timers), place, p, t);
        case InQueue(q) =>
          if q in queues {
            ListedOnce(queues[q], place, p, t);
          }
        case Nowhere =>
      }
    }

    lemma NobodyOnCpu()
      requires Placed() && current == None
      ensures forall u | u in place :: place[u] != OnCpu
    {
      hide Listed;
    }

    lemma DeadNotQueued(pid: nat)
      requires Core() && pid in procs && procs[pid].zombie
      ensures forall u | u in tcb && tcb[u].pid == pid :: u !in ready && u !in Sleepers(timers) && current != Some(u)
    {
      forall u | u in tcb && tcb[u].pid == pid ensures u !in ready && u !in Sleepers(timers) && current != Some(u) {
        assert ThreadOk(u, place, tcb, procs);
      }
    }
  }

  lemma StartsThread(w: World, task: Thread, tid: nat)
    requires Enabled(w, StartThread(task, tid))
    ensures task !in w.tcb && Caller(w).value in w.procs && FreeTid(w.tcb, Caller(w).value, tid)
  {
  }

  lemma JoinsThread(w: World, tid: nat)
    requires Enabled(w, JoinThread(tid))
    ensures Caller(w).value in w.procs && tid < |w.procs[Caller(w).value].tasks|
  {
  }

  lemma ExitEffect(w: World, code: int, v: World)
    requires w.current.Some? && w.current.value in w.tcb
    requires
      var c := w.tcb[w.current.value];
      && v.tcb == w.tcb[w.current.value := c.(exitCode := Some(code))]
      && (if c.tid == 0
          then
            && v.procs == w.procs[c.pid := Pcb(true, [])] && v.ready == Keep(w.ready, Members(v.tcb, c.pid))
            && (forall x :: multiset(v.timers)[x] ==
                  if x.task in v.tcb && v.tcb[x.task].pid == c.pid then 0 else multiset(w.timers)[x])
          else v.procs == w.procs && v.ready == w.ready && v.timers == w.timers)
    requires v.current == None && v.queues == w.queues && v.counts == w.counts && v.locked == w.locked
    ensures Exited(w, code, v)
  {
    SameMembers(w.tcb, v.tcb, w.current.value, w.tcb[w.current.value].pid);
  }

  lemma OneChanged(a: Snap, b: Snap, t: Thread)
    requires t in a.tcb && t in b.tcb && b.tcb == a.tcb[t := b.tcb[t]] && b.tcb[t].pid == a.tcb[t].pid
    requires b.trace == a.trace && b.procs == a.procs && a.ready <= b.ready
    ensures Quiet(a, b)
  {
  }

  lemma WakeIs(w: World, q: QueueId, v: World)
    requires q in w.queues && w.queues[q] != [] && w.queues[q][0] in w.tcb
    requires v == w.(queues := w.queues[q := w.queues[q][1..]], ready := w.ready + [w.queues[q][0]], tcb := v.tcb)
    requires v.tcb == w.tcb[w.queues[q][0] := w.tcb[w.queues[q][0]].(status := Ready)]
    ensures v == Wake(w, q)
  {
  }

  /** The threads a process lists. */
  ghost function ThreadsOf(tasks: seq<Option<Thread>>): set<Thread> {
    set x | x in tasks && x.Some? :: x.value
  }

  lemma OneMoreTask(tasks: seq<Option<Thread>>, i: nat)
    requires i < |tasks|
    ensures tasks[i].Some? ==> ThreadsOf(tasks[..i + 1]) == ThreadsOf(tasks[..i]) + {tasks[i].value}
    ensures tasks[i].None? ==> ThreadsOf(tasks[..i + 1]) == ThreadsOf(tasks[..i])
  {
    assert tasks[..i + 1] == tasks[..i] + [tasks[i]];
  }

  lemma {:induction false} KeepNone(s: seq<Thread>, gone: set<Thread>)
    requires forall u | u in s :: u !in gone
    ensures Keep(s, gone) == s
  {
    if s != [] {
      KeepNone(s[..|s| - 1], gone);
      assert s == s[..|s| - 1] + [s[|s| - 1]];
    }
  }

  lemma NothingKept(ready: seq<Thread>, timers: seq<Timer>)
    ensures Keep(ready, ThreadsOf([])) == ready && OthersTimed(timers, timers, ThreadsOf([]))
  {
    KeepNone(ready, ThreadsOf([]));
  }

  lemma {:induction false} CutKeeps(s: seq<Thread>, i: nat)
    requires Distinct(s) && i < |s|
    ensures Keep(s, {s[i]}) == s[..i] + s[i + 1..]
    decreases |s|
  {
    var n := |s| - 1;
    var init := s[..n];
    if i == n {
      KeepNone(init, {s[i]});
      assert s[i + 1..] == [];
    } else {
      CutKeeps(init, i);
      assert init[..i] == s[..i] && s[i + 1..] == init[i + 1..] + [s[n]];
      assert s[n] !in {s[i]};
    }
  }

  lemma {:induction false} RemoveKeeps(s: seq<Thread>, t: Thread, r: seq<Thread>)
    requires Distinct(s) && (t !in s ==> r == s)
    requires forall i | 0 <= i < |s| && s[i] == t :: r == s[..i] + s[i + 1..]
    ensures r == Keep(s, {t})
  {
    hide Keep, Distinct;
    if t !in s {
      KeepNone(s, {t});
    } else {
      var i :| 0 <= i < |s| && s[i] == t;
      CutKeeps(s, i);
    }
  }

  lemma {:induction false} KeepTwice(s: seq<Thread>, a: set<Thread>, b: set<Thread>)
    ensures Keep(Keep(s, a), b) == Keep(s, a + b)
  {
    if s != [] {
      var n := |s| - 1;
      KeepTwice(s[..n], a, b);
      if s[n] in a {
        assert Keep(s, a) == Keep(s[..n], a);
      } else {
        KeepSnoc(Keep(s[..n], a), b, s[n]);
      }
    }
  }

  lemma {:induction false} KeepSame(s: seq<Thread>, a: set<Thread>, b: set<Thread>)
    requires forall u | u in s :: u in a <==> u in b
    ensures Keep(s, a) == Keep(s, b)
  {
    if s != [] {
      KeepSame(s[..|s| - 1], a, b);
    }
  }

  lemma KeepThinned(s: seq<Thread>, gone: set<Thread>)
    ensures Thinned(s, Keep(s, gone), gone)
  {
    forall k | 0 <= k < |s| && s[k] !in gone ensures Within(s[k], k, Keep(s, gone)) {
      KeepPrefix(s, gone, k + 1);
      KeepPrefix(s, gone, k);
      assert s[..k + 1] == s[..k] + [s[k]];
      KeepSnoc(s[..k], gone, s[k]);
      var j := |Keep(s[..k], gone)|;
      assert Keep(s[..k + 1], gone)[j] == s[k];
    }
  }

  lemma TimedTwice(a: seq<Timer>, b: seq<Timer>, c: seq<Timer>, gone: set<Thread>, t: Thread)
    requires OthersTimed(a, b, gone)
    requires forall x :: multiset(c)[x] == if x.task == t then 0 else multiset(b)[x]
    ensures OthersTimed(a, c, gone + {t})
  {
  }

  lemma TimedSame(a: seq<Timer>, b: seq<Timer>, gone: set<Thread>, gone': set<Thread>)
    requires OthersTimed(a, b, gone) && forall u | u in Sleepers(a) :: u in gone <==> u in gone'
    ensures OthersTimed(a, b, gone')
  {
    forall x ensures multiset(b)[x] == if x.task in gone' then 0 else multiset(a)[x] {
      if x in a {
        var i :| 0 <= i < |a| && a[i] == x;
        assert Sleepers(a)[i] == x.task;
      } else {
        assert multiset(a)[x] == 0;
      }
    }
  }

  lemma MembersPid(tcb: map<Thread, Tcb>, pid: nat)
    ensures forall u | u in Members(tcb, pid) :: u in tcb && tcb[u].pid == pid
  {
  }

  lemma MembersTimed(a: seq<Timer>, b: seq<Timer>, tcb: map<Thread, Tcb>, pid: nat)
    requires OthersTimed(a, b, Members(tcb, pid))
    ensures forall x :: multiset(b)[x] == if x.task in tcb && tcb[x.task].pid == pid then 0 else multiset(a)[x]
  {
  }

  lemma SameMembers(tcb: map<Thread, Tcb>, tcb': map<Thread, Tcb>, t: Thread, pid: nat)
    requires t in tcb && t in tcb' && tcb' == tcb[t := tcb'[t]] && tcb'[t].pid == tcb[t].pid
    ensures Members(tcb', pid) == Members(tcb, pid)
  {
  }

  lemma {:induction false} OwnTasks(tcb: map<Thread, Tcb>, procs: map<nat, Pcb>, mutexes: set<QueueId>, pid: nat)
    requires ListsOk(tcb, procs, mutexes) && pid in procs
    ensures ThreadsOf(procs[pid].tasks) <= Members(tcb, pid) && ThreadsOf(procs[pid].tasks) <= tcb.Keys
    ensures forall i | 0 <= i < |procs[pid].tasks| && procs[pid].tasks[i].Some? ::
        procs[pid].tasks[i].value in tcb
  {
    assert TasksOk(pid, procs[pid].tasks, tcb);
    forall u | u in ThreadsOf(procs[pid].tasks) ensures u in tcb && tcb[u].pid == pid {
      var i :| 0 <= i < |procs[pid].tasks| && procs[pid].tasks[i] == Some(u);
    }
  }
}
