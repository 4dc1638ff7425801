/** The semaphore deadlock detector inside `sys_semaphore_down` (os/src/syscall/sync.rs). */
module Deadlock {

  type Matrix = seq<seq<nat>>

  /** Entry of a row that may be shorter than the number of resources; the missing part counts as zero. */
  function At(m: Matrix, t: nat, i: nat): nat
    requires t < |m|
  {
    if i < |m[t]| then m[t][i] else 0
  }

  /** What the threads in `s` below `n` hold of resource `i`. */
  ghost function Held(alloc: Matrix, s: set<nat>, i: nat, n: nat): nat
    requires n <= |alloc|
  {
    if n == 0 then 0 else Held(alloc, s, i, n - 1) + (if n - 1 in s then At(alloc, n - 1, i) else 0)
  }

  /** Thread `t` can be served from `available` and what the threads in `before` give back. */
  ghost predicate Fits(available: seq<nat>, need: Matrix, alloc: Matrix, n: nat, t: nat, before: set<nat>)
    requires n <= |need| && n <= |alloc| && t < n
  {
    forall i | 0 <= i < |available| :: At(need, t, i) <= available[i] + Held(alloc, before, i, n)
  }

  ghost function Elements(s: seq<nat>): set<nat> {
    set x | x in s
  }

  /** Each thread of the list is below `n`, listed once, and fits behind those listed before it. */
  ghost predicate SafeList(available: seq<nat>, need: Matrix, alloc: Matrix, n: nat, order: seq<nat>)
    requires n <= |need| && n <= |alloc|
  {
    && (forall k | 0 <= k < |order| :: order[k] < n)
    && (forall j, k | 0 <= j < k < |order| :: order[j] != order[k])
    && (forall k | 0 <= k < |order| :: Fits(available, need, alloc, n, order[k], Elements(order[..k])))
  }

  /** The state is safe: some order serves all threads. */
  ghost predicate Safe(available: seq<nat>, need: Matrix, alloc: Matrix, n: nat)
    requires n <= |need| && n <= |alloc|
  {
    exists order :: SafeList(available, need, alloc, n, order) && forall t: nat | t < n :: t in order
  }

  lemma {:induction false} HeldAdd(alloc: Matrix, s: set<nat>, t: nat, i: nat, n: nat)
    requires n <= |alloc| && t !in s
    ensures Held(alloc, s + {t}, i, n) == Held(alloc, s, i, n) + (if t < n then At(alloc, t, i) else 0)
    decreases n
  {
    if n > 0 {
      HeldAdd(alloc, s, t, i, n - 1);
    }
  }

  lemma {:induction false} HeldMonotone(alloc: Matrix, a: set<nat>, b: set<nat>, i: nat, n: nat)
    requires n <= |alloc| && a <= b
    ensures Held(alloc, a, i, n) <= Held(alloc, b, i, n)
    decreases n
  {
    if n > 0 {
      HeldMonotone(alloc, a, b, i, n - 1);
    }
  }

  lemma {:induction false} HeldNone(alloc: Matrix, i: nat, n: nat)
    requires n <= |alloc|
    ensures Held(alloc, {}, i, n) == 0
    decreases n
  {
    if n > 0 {
      HeldNone(alloc, i, n - 1);
    }
  }

  /** Confluence: once nobody outside `done` fits, no order whatever serves anyone outside `done`. */
  lemma StuckIsFinal(available: seq<nat>, need: Matrix, alloc: Matrix, n: nat, done: set<nat>, order: seq<nat>)
    requires n <= |need| && n <= |alloc|
    requires forall t: nat | t < n && t !in done :: !Fits(available, need, alloc, n, t, done)
    requires SafeList(available, need, alloc, n, order)
    ensures Elements(order) <= done
  {
    StuckPrefix(available, need, alloc, n, done, order, |order|);
    assert order[..|order|] == order;
  }

  lemma {:induction false} StuckPrefix(available: seq<nat>, need: Matrix, alloc: Matrix, n: nat, done: set<nat>,
            order: seq<nat>, k: nat)
    requires n <= |need| && n <= |alloc| && k <= |order|
    requires forall t: nat | t < n && t !in done :: !Fits(available, need, alloc, n, t, done)
    requires SafeList(available, need, alloc, n, order)
    ensures Elements(order[..k]) <= done
    decreases k
  {
    if k > 0 {
      StuckPrefix(available, need, alloc, n, done, order, k - 1);
      var t := order[k - 1];
      assert Fits(available, need, alloc, n, t, Elements(order[..k - 1]));
      forall i | 0 <= i < |available| ensures At(need, t, i) <= available[i] + Held(alloc, done, i, n) {
        HeldMonotone(alloc, Elements(order[..k - 1]), done, i, n);
      }
      assert Fits(available, need, alloc, n, t, done);
    }
  }

  /** Whatever order threads are picked in, the same threads get through. */
  lemma SameThreadsFinish(available: seq<nat>, need: Matrix, alloc: Matrix, n: nat, a: seq<nat>, b: seq<nat>)
    requires n <= |need| && n <= |alloc|
    requires SafeList(available, need, alloc, n, a) && SafeList(available, need, alloc, n, b)
    requires forall t: nat | t < n && t !in a :: !Fits(available, need, alloc, n, t, Elements(a))
    requires forall t: nat | t < n && t !in b :: !Fits(available, need, alloc, n, t, Elements(b))
    ensures Elements(a) == Elements(b)
  {
    StuckIsFinal(available, need, alloc, n, Elements(a), b);
    StuckIsFinal(available, need, alloc, n, Elements(b), a);
  }

  ghost predicate SameEntries(m: Matrix, m': Matrix) {
    |m'| == |m| && forall t, i: nat | 0 <= t < |m| :: At(m', t, i) == At(m, t, i)
  }

  /** Row `t` padded with zeros to at least `len` entries, as the source does on the fly. */
  method Pad(m: Matrix, t: nat, len: nat) returns (m': Matrix)
    requires t < |m|
    ensures SameEntries(m, m') && len <= |m'[t]|
  {
    m' := m;
    while |m'[t]| < len
      invariant t < |m'| && SameEntries(m, m')
      decreases len - |m'[t]|
    {
      m' := m'[t := m'[t] + [0]];
    }
  }

  /** The first inner loop: is thread `t`'s need covered by `work`? */
  method Covered(need: Matrix, t: nat, work: seq<nat>) returns (valid: bool, need': Matrix)
    requires t < |need|
    ensures SameEntries(need, need')
    ensures valid <==> forall i | 0 <= i < |work| :: At(need, t, i) <= work[i]
  {
    valid, need' := true, need;
    for i := 0 to |work|
      invariant SameEntries(need, need')
      invariant valid <==> forall k | 0 <= k < i :: At(need, t, k) <= work[k]
    {
      need' := Pad(need', t, i + 1);
      if need'[t][i] > work[i] {
        assert At(need, t, i) > work[i];
        valid := false;
      }
    }
  }

  /** The second inner loop: thread `t`'s allocation is added to `work`. */
  method GiveBack(alloc: Matrix, t: nat, work: seq<nat>) returns (work': seq<nat>, alloc': Matrix)
    requires t < |alloc|
    ensures SameEntries(alloc, alloc') && |work'| == |work|
    ensures forall i | 0 <= i < |work| :: work'[i] == work[i] + At(alloc, t, i)
  {
    work', alloc' := work, alloc;
    for i := 0 to |work|
      invariant SameEntries(alloc, alloc') && |work'| == |work|
      invariant forall k | 0 <= k < |work| :: work'[k] == if k < i then work[k] + At(alloc, t, k) else work[k]
    {
      alloc' := Pad(alloc', t, i + 1);
      assert alloc'[t][i] == At(alloc, t, i);
      work' := work'[i := work'[i] + alloc'[t][i]];
    }
  }

  /** Loop state: `order` lists the finished threads and `work` is what they leave. */
  ghost predicate Progress(available: seq<nat>, need: Matrix, alloc: Matrix, n: nat, work: seq<nat>,
            finish: seq<bool>, order: seq<nat>)
    requires n <= |need| && n <= |alloc|
  {
    && |finish| == n && |work| == |available| && SafeList(available, need, alloc, n, order)
    && (forall t: nat | t < n :: finish[t] <==> t in order)
    && (forall i | 0 <= i < |available| :: work[i] == available[i] + Held(alloc, Elements(order), i, n))
  }

  lemma Finish(available: seq<nat>, need: Matrix, alloc: Matrix, n: nat, work: seq<nat>, finish: seq<bool>,
            order: seq<nat>, t: nat, work': seq<nat>)
    requires n <= |need| && n <= |alloc| && Progress(available, need, alloc, n, work, finish, order)
    requires t < n && !finish[t] && |work'| == |work|
    requires forall i | 0 <= i < |work| :: At(need, t, i) <= work[i] && work'[i] == work[i] + At(alloc, t, i)
    ensures Progress(available, need, alloc, n, work', finish[t := true], order + [t])
  {
    var order' := order + [t];
    assert Elements(order') == Elements(order) + {t};
    assert forall k | 0 <= k <= |order| :: order'[..k] == order[..k];
    forall k | 0 <= k < |order'| ensures Fits(available, need, alloc, n, order'[k], Elements(order'[..k])) {
      if k < |order| {
        assert Fits(available, need, alloc, n, order[k], Elements(order[..k]));
      }
    }
    forall i | 0 <= i < |available| ensures work'[i] == available[i] + Held(alloc, Elements(order'), i, n) {
      HeldAdd(alloc, Elements(order), t, i, n);
    }
  }

  /** Nothing is finished yet. */
  lemma StartProgress(available: seq<nat>, need: Matrix, alloc: Matrix, n: nat, finish: seq<bool>)
    requires n <= |need| && n <= |alloc| && |finish| == n && forall t: nat | t < n :: !finish[t]
    ensures Progress(available, need, alloc, n, available, finish, [])
  {
    assert Elements([]) == {};
    forall i | 0 <= i < |available| ensures Held(alloc, Elements([]), i, n) == 0 {
      HeldNone(alloc, i, n);
    }
  }

  /** A list of distinct numbers below `n` has at most `n` elements. */
  lemma {:induction false} DistinctBound(order: seq<nat>, n: nat)
    requires forall k | 0 <= k < |order| :: order[k] < n
    requires forall j, k | 0 <= j < k < |order| :: order[j] != order[k]
    ensures |order| <= n
    decreases n
  {
    if |order| > 0 {
      assert order[0] < n;
      if k :| 0 <= k < |order| && order[k] == n - 1 {
        var rest := order[..k] + order[k + 1..];
        assert forall j | 0 <= j < |rest| :: rest[j] == if j < k then order[j] else order[j + 1];
        DistinctBound(rest, n - 1);
      } else {
        DistinctBound(order, n - 1);
      }
    }
  }

  /** One pass over all threads; `need0` and `alloc0` are the matrices before any padding. */
  method Pass(available: seq<nat>, need: Matrix, alloc: Matrix, n: nat, work: seq<nat>, finish: seq<bool>,
              ghost need0: Matrix, ghost alloc0: Matrix, ghost order: seq<nat>)
    returns (found: bool, need': Matrix, alloc': Matrix, work': seq<nat>, finish': seq<bool>, ghost order': seq<nat>)
    requires n <= |need| && n <= |alloc| && SameEntries(need0, need) && SameEntries(alloc0, alloc)
    requires Progress(available, need0, alloc0, n, work, finish, order)
    ensures SameEntries(need0, need') && SameEntries(alloc0, alloc')
    ensures Progress(available, need0, alloc0, n, work', finish', order')
    ensures found ==> |order'| > |order|
    ensures !found ==> finish' == finish && order' == order
    ensures !found ==> forall t: nat | t < n && !finish[t] :: !Fits(available, need0, alloc0, n, t, Elements(order))
  {
    hide SafeList, Held;
    found, need', alloc', work', finish', order' := false, need, alloc, work, finish, order;
    for t := 0 to n
      invariant SameEntries(need0, need') && SameEntries(alloc0, alloc')
      invariant Progress(available, need0, alloc0, n, work', finish', order')
      invariant found ==> |order'| > |order|
      invariant !found ==> finish' == finish && order' == order
      invariant !found ==> forall u: nat | u < t && !finish[u] :: !Fits(available, need0, alloc0, n, u, Elements(order))
    {
      var valid;
      valid, need' := Covered(need', t, work');
      assert valid <==> Fits(available, need0, alloc0, n, t, Elements(order'));
      if !finish'[t] && valid {
        ghost var w := work';
        work', alloc' := GiveBack(alloc', t, work');
        Finish(available, need0, alloc0, n, w, finish', order', t, work');
        finish' := finish'[t := true];
        order' := order' + [t];
        found := true;
      }
    }
  }

  /** The detector: it always ends, and reports a deadlock exactly when no order of all threads lets
      each be served from what is available and what those before it give back. The order of the
      scan does not matter, and the padding of rows is invisible. */
  method Detect(available: seq<nat>, need: Matrix, alloc: Matrix, n: nat) returns (deadlock: bool, need': Matrix,
            alloc': Matrix)
    requires n <= |need| && n <= |alloc|
    ensures deadlock <==> !Safe(available, need, alloc, n)
    ensures SameEntries(need, need') && SameEntries(alloc, alloc')
  {
    hide Held, Fits;
    need', alloc' := need, alloc;
    var work := available;
    var finish := seq(n, _ => false);
    ghost var order: seq<nat> := [];
    StartProgress(available, need, alloc, n, finish);
    while true
      invariant SameEntries(need, need') && SameEntries(alloc, alloc')
      invariant Progress(available, need, alloc, n, work, finish, order)
      decreases n - |order|
    {
      var found;
      found, need', alloc', work, finish, order := Pass(available, need', alloc', n, work, finish, need, alloc, order);
      DistinctBound(order, n);
      if !found {
        if !(forall t: nat | t < n :: finish[t]) {
          forall other | SafeList(available, need, alloc, n, other) ensures exists t: nat :: t < n && t !in other {
            StuckIsFinal(available, need, alloc, n, Elements(order), other);
            var t: nat :| t < n && !finish[t];
            assert t !in Elements(order);
            assert t !in Elements(other);
          }
          return true, need', alloc';
        }
        assert forall t: nat | t < n :: t in order;
        break;
      }
    }
    deadlock := false;
  }
}
