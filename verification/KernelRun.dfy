/** Every history of address spaces over one frame allocator. */
module KernelRuns {
  import opened Address
  import opened PageTables
  import opened MemorySets
  import opened KernelMemory

  /** Steps on the spaces created so far, which are numbered in order of creation. */
  datatype KernelOp = CreateSpace | ForkSpace(i: nat) | ChangeSpace(i: nat, op: AreaOp) | DropSpace(i: nat)

  // What the steps mean, in terms of lists of page ranges alone.

  /** A space created so far: dropped, or with its areas and perhaps a trampoline. */
  datatype Space = Dropped | Present(areas: seq<MapArea>, trampoline: bool)

  predicate Alive(st: seq<Space>, i: nat) {
    i < |st| && st[i].Present?
  }

  /** Every area is Framed and none covers the trampoline. */
  predicate Copyable(areas: seq<MapArea>) {
    forall j | 0 <= j < |areas| :: areas[j].framed && !areas[j].Has(TRAMPOLINE_VPN)
  }

  /** One step; a step on a space that does not exist or that would panic is not made. */
  ghost function Step(st: seq<Space>, op: KernelOp): seq<Space> {
    match op
    case CreateSpace => st + [Present([], false)]
    case ForkSpace(i) => if Alive(st, i) && Copyable(st[i].areas) then st + [Present(st[i].areas, true)] else st
    case ChangeSpace(i, a) =>
      if Alive(st, i) && Fits(st[i].areas, st[i].trampoline, a)
      then st[i := Present(Apply(st[i].areas, a), st[i].trampoline)] else st
    case DropSpace(i) => if Alive(st, i) then st[i := Dropped] else st
  }

  /** A bound on the frames a step takes. */
  ghost function StepCost(st: seq<Space>, op: KernelOp): nat {
    match op
    case CreateSpace => 1
    case ForkSpace(i) => if Alive(st, i) && Copyable(st[i].areas) then FramesEnough(st[i].areas) else 0
    case ChangeSpace(i, a) =>
      if Alive(st, i) && Fits(st[i].areas, st[i].trampoline, a) then AreaCost(st[i].areas, a) else 0
    case DropSpace(_) => 0
  }

  ghost function Replay(ops: seq<KernelOp>): seq<Space> {
    if ops == [] then [] else Step(Replay(ops[..|ops| - 1]), ops[|ops| - 1])
  }

  ghost function Budget(ops: seq<KernelOp>): nat {
    if ops == [] then 0
    else Budget(ops[..|ops| - 1]) + StepCost(Replay(ops[..|ops| - 1]), ops[|ops| - 1])
  }

  lemma ReplayNext(ops: seq<KernelOp>, n: nat)
    requires n < |ops|
    ensures Replay(ops[..n + 1]) == Step(Replay(ops[..n]), ops[n])
    ensures Budget(ops[..n + 1]) == Budget(ops[..n]) + StepCost(Replay(ops[..n]), ops[n])
  {
    assert ops[..n + 1][..n] == ops[..n];
  }

  lemma {:induction false} BudgetGrows(ops: seq<KernelOp>, n: nat)
    requires n <= |ops|
    ensures Budget(ops[..n]) <= Budget(ops)
    decreases |ops| - n
  {
    if n < |ops| {
      ReplayNext(ops, n);
      BudgetGrows(ops, n + 1);
    } else {
      assert ops[..n] == ops;
    }
  }

  /** A space is there until a step drops it. */
  lemma {:induction false} StillThere(ops: seq<KernelOp>, i: nat)
    requires i < |Replay(ops)| && DropSpace(i) !in ops
    ensures Replay(ops)[i].Present?
  {
    if ops != [] {
      var before := ops[..|ops| - 1];
      if i < |Replay(before)| {
        StillThere(before, i);
      }
    }
  }

  /** Page `w` of space `i` is in an area of this type and with these permissions. */
  ghost predicate Page(st: seq<Space>, i: nat, w: nat, framed: bool, perm: Flags) {
    Alive(st, i) && Rights(st[i].areas, w, framed, perm)
  }

  ghost predicate AllDisjoint(st: seq<Space>) {
    forall i: nat | Alive(st, i) :: Disjoint(st[i].areas)
  }

  /** The step is an operation on the areas of space `i` that does not panic. */
  ghost predicate Changes(st: seq<Space>, op: KernelOp, i: nat) {
    op.ChangeSpace? && op.i == i && Alive(st, i) && Fits(st[i].areas, st[i].trampoline, op.op)
  }

  /** Every step, page by page. A space keeps its pages but for those that the step takes from it or gives
      to it; a dropped space has none; a new one has none, or those of the space it is a copy of. */
  lemma StepPage(st: seq<Space>, op: KernelOp, i: nat, w: nat, framed: bool, perm: Flags)
    requires AllDisjoint(st)
    ensures AllDisjoint(Step(st, op))
    ensures i < |st| ==> (Page(Step(st, op), i, w, framed, perm) <==>
              || (Changes(st, op, i) && Gives(st[i].areas, op.op, w, framed, perm))
              || (&& Page(st, i, w, framed, perm) && op != DropSpace(i)
                  && !(Changes(st, op, i) && Takes(st[i].areas, op.op, w))))
    ensures i == |st| ==> (Page(Step(st, op), i, w, framed, perm) <==>
              op.ForkSpace? && Page(st, op.i, w, framed, perm) && Copyable(st[op.i].areas))
  {
    hide Rights, Disjoint, Fits, Apply, Gives, Takes, Copyable;
    NoRights(w, framed, perm);
    if op.ChangeSpace? && Changes(st, op, op.i) {
      ApplyRights(st[op.i].areas, st[op.i].trampoline, op.op, w, framed, perm);
    }
  }

  lemma NoRights(w: nat, framed: bool, perm: Flags)
    ensures !Rights([], w, framed, perm) && Disjoint([])
  {
  }

  /** No page from `lo` up to `hi` is in an area or the trampoline of space `i`. */
  ghost predicate FreeRange(st: seq<Space>, i: nat, lo: nat, hi: nat) {
    && Alive(st, i) && lo <= hi <= VPN_COUNT && (st[i].trampoline ==> hi <= TRAMPOLINE_VPN)
    && (forall w: nat, framed, perm | lo <= w < hi :: !Rights(st[i].areas, w, framed, perm))
  }

  lemma FreeIsUncovered(st: seq<Space>, i: nat, lo: nat, hi: nat)
    requires FreeRange(st, i, lo, hi)
    ensures forall w: nat | lo <= w < hi :: !Covered(st[i].areas, st[i].trampoline, w)
  {
    var areas := st[i].areas;
    forall w: nat | lo <= w < hi ensures !Covered(areas, st[i].trampoline, w) {
      if InAreas(areas, w) {
        var k :| 0 <= k < |areas| && areas[k].Has(w);
        assert Rights(areas, w, areas[k].framed, areas[k].perm);
      }
    }
  }

  /** An area inserted in a free range is there afterwards. */
  lemma InsertWorks(st: seq<Space>, i: nat, a: MapArea, w: nat)
    requires AllDisjoint(st) && FreeRange(st, i, a.start, a.end) && a.frames == map[] && a.Has(w)
    ensures Page(Step(st, ChangeSpace(i, Insert(a))), i, w, a.framed, a.perm)
  {
    FreeIsUncovered(st, i, a.start, a.end);
    StepPage(st, ChangeSpace(i, Insert(a)), i, w, a.framed, a.perm);
  }

  /** Area `k` is the first of space `i` that starts at `start`. */
  ghost predicate StartsAt(st: seq<Space>, i: nat, start: nat, k: nat) {
    && Alive(st, i) && k < |st[i].areas| && st[i].areas[k].start == start
    && forall j | 0 <= j < k :: st[i].areas[j].start != start
  }

  /** An area extended into a free range has the new pages. */
  lemma AppendWorks(st: seq<Space>, i: nat, start: nat, newEnd: nat, k: nat, w: nat)
    requires AllDisjoint(st) && StartsAt(st, i, start, k) && FreeRange(st, i, st[i].areas[k].end, newEnd)
    requires st[i].areas[k].end <= w < newEnd
    ensures Page(Step(st, ChangeSpace(i, Append(start, newEnd))), i, w, st[i].areas[k].framed, st[i].areas[k].perm)
  {
    FreeIsUncovered(st, i, st[i].areas[k].end, newEnd);
    assert First(st[i].areas, start) == k;
    StepPage(st, ChangeSpace(i, Append(start, newEnd)), i, w, st[i].areas[k].framed, st[i].areas[k].perm);
  }

  /** A removed area's pages, and those cut off by shrinking, are in no area. */
  lemma RemoveWorks(st: seq<Space>, i: nat, start: nat, k: nat, w: nat, framed: bool, perm: Flags)
    requires AllDisjoint(st) && StartsAt(st, i, start, k) && st[i].areas[k].Has(w)
    ensures !Page(Step(st, ChangeSpace(i, Remove(start))), i, w, framed, perm)
  {
    assert First(st[i].areas, start) == k;
    StepPage(st, ChangeSpace(i, Remove(start)), i, w, framed, perm);
  }

  lemma ShrinkWorks(st: seq<Space>, i: nat, start: nat, newEnd: nat, k: nat, w: nat, framed: bool, perm: Flags)
    requires AllDisjoint(st) && StartsAt(st, i, start, k) && start <= newEnd <= w < st[i].areas[k].end
    ensures !Page(Step(st, ChangeSpace(i, Shrink(start, newEnd))), i, w, framed, perm)
  {
    assert First(st[i].areas, start) == k;
    StepPage(st, ChangeSpace(i, Shrink(start, newEnd)), i, w, framed, perm);
  }

  /** A space of Framed areas below the trampoline is copied: the new space has the same pages. */
  lemma ForkWorks(st: seq<Space>, i: nat, w: nat, framed: bool, perm: Flags)
    requires AllDisjoint(st) && Alive(st, i)
    requires forall j | 0 <= j < |st[i].areas| :: st[i].areas[j].framed && st[i].areas[j].end <= TRAMPOLINE_VPN
    ensures |Step(st, ForkSpace(i))| == |st| + 1 && Step(st, ForkSpace(i))[|st|].Present?
    ensures Page(Step(st, ForkSpace(i)), |st|, w, framed, perm) <==> Page(st, i, w, framed, perm)
  {
    StepPage(st, ForkSpace(i), |st|, w, framed, perm);
  }

  /** In every history the areas of a space stay disjoint, so that a page has one set of permissions. */
  lemma {:induction false} ReplayDisjoint(ops: seq<KernelOp>)
    ensures AllDisjoint(Replay(ops))
  {
    hide Step, Disjoint;
    if ops != [] {
      ReplayDisjoint(ops[..|ops| - 1]);
      StepPage(Replay(ops[..|ops| - 1]), ops[|ops| - 1], 0, 0, false, 0);
    }
  }

  // What a kernel has to do with such a list.

  /** The space has these areas, and exactly their pages and the trampoline, if any, mapped. */
  ghost predicate Agrees(mem: map<nat, Frame>, s: MemorySet, p: Space)
    reads s
  {
    p.Present? && Shapes(s.areas) == p.areas && Tight(mem, s.pt.root, s.areas, p.trampoline)
  }

  /** The kernel holds exactly the spaces that are present, each as described. */
  ghost predicate Models(k: Kernel, spaces: seq<MemorySet>, st: seq<Space>)
    reads k, k.pm, spaces
  {
    && |spaces| == |st| && (forall i, j | 0 <= i < j < |spaces| :: spaces[i] != spaces[j])
    && (forall s | s in k.spaces :: s in spaces)
    && (forall i | 0 <= i < |st| :: spaces[i] in k.spaces <==> st[i].Present?)
    && (forall i | 0 <= i < |st| && st[i].Present? :: Agrees(k.pm.mem, spaces[i], st[i]))
  }

  lemma SpaceIsValid(k: Kernel, s: MemorySet)
    requires k.Valid() && s in k.spaces
    ensures s.Valid(k.pm)
  {
  }

  lemma TightSame(mem: map<nat, Frame>, mem': map<nat, Frame>, root: nat, areas: seq<MapArea>, trampoline: bool)
    requires SameMappings(mem, mem', root) && Tight(mem, root, areas, trampoline)
    ensures Tight(mem', root, areas, trampoline)
  {
    hide Mapping, InAreas;
  }

  lemma CopyableShapes(areas: seq<MapArea>)
    ensures Copyable(Shapes(areas)) <==> Copyable(areas)
  {
    if Copyable(Shapes(areas)) {
      forall j | 0 <= j < |areas| ensures areas[j].framed && !areas[j].Has(TRAMPOLINE_VPN) {
        assert Shapes(areas)[j].framed && !Shapes(areas)[j].Has(TRAMPOLINE_VPN);
      }
    }
  }

  lemma {:induction false} EnoughShapes(areas: seq<MapArea>)
    ensures FramesEnough(Shapes(areas)) == FramesEnough(areas)
  {
    if areas != [] {
      var n := |areas| - 1;
      EnoughShapes(areas[..n]);
      assert Shapes(areas)[..n] == Shapes(areas[..n]);
    }
  }

  lemma CostShapes(areas: seq<MapArea>, op: AreaOp)
    ensures AreaCost(Shapes(areas), op) == AreaCost(areas, op)
  {
    if op.Append? {
      FirstOfShapes(areas, op.start);
    }
  }

  /** No page from `lo` to `hi` is mapped. */
  method Unmapped(s: MemorySet, pm: PhysicalMemory, lo: nat, hi: nat) returns (b: bool)
    requires s.Valid(pm)
    ensures b <==> forall w: nat | lo <= w < hi :: Mapping(pm.mem, s.pt.root, w).None?
  {
    hide Mapping, PageTable.Valid, SpaceOk, LeafTable, IsValid;
    b := true;
    var vpn := lo;
    while vpn < hi && b
      invariant lo <= vpn && (vpn <= hi || vpn == lo)
      invariant b ==> forall w: nat | lo <= w < vpn :: Mapping(pm.mem, s.pt.root, w).None?
      invariant !b ==> exists w: nat | lo <= w < hi :: Mapping(pm.mem, s.pt.root, w).Some?
      decreases hi - vpn
    {
      var e := s.pt.Translate(pm, vpn);
      b := !(e.Some? && IsValid(e.value));
      vpn := vpn + 1;
    }
  }

  /** The operation does not make the source panic. */
  method Applies(s: MemorySet, pm: PhysicalMemory, op: AreaOp) returns (b: bool)
    requires s.Valid(pm)
    ensures b <==> Applicable(pm, s, op)
  {
    hide Mapping, PageTable.Valid, SpaceOk, First;
    b := true;
    match op {
      case Insert(a) =>
        b := Unmapped(s, pm, a.start, a.end);
        b := b && a.frames == map[] && a.start <= a.end <= VPN_COUNT;
      case Remove(_) =>
      case Append(start, newEnd) =>
        var k := First(s.areas, start);
        if k < |s.areas| {
          b := Unmapped(s, pm, s.areas[k].end, newEnd);
          b := b && s.areas[k].end <= newEnd <= VPN_COUNT;
        }
      case Shrink(start, newEnd) =>
        var k := First(s.areas, start);
        b := k < |s.areas| ==> start <= newEnd <= s.areas[k].end;
    }
  }

  /** `MemorySet::new_bare` */
  method PerformCreate(k: Kernel, spaces: seq<MemorySet>, ghost st: seq<Space>)
    returns (ok: bool, spaces': seq<MemorySet>)
    requires k.Valid() && Models(k, spaces, st)
    modifies k, k.pm
    ensures ok <==> old(k.pm.Free()) > 0
    ensures ok ==> k.Valid() && Models(k, spaces', Step(st, CreateSpace)) && k.pm.Free() + 1 == old(k.pm.Free())
    ensures ok ==> forall s | s in k.spaces && s !in old(k.spaces) :: fresh(s) && fresh(s.pt)
  {
    hide Kernel.Valid, Mapping, PhysicalMemory.Valid, PhysicalMemory.Live, PhysicalMemory.Free, MemorySet.Valid,
        Tight, SameMappings;
    ghost var mem := k.pm.mem;
    var s := k.NewSpace();
    ok, spaces' := s != null, spaces;
    if ok {
      spaces' := spaces + [s];
      forall i | 0 <= i < |st| && st[i].Present? ensures Agrees(k.pm.mem, spaces'[i], st[i]) {
        assert Agrees(mem, spaces[i], st[i]);
        TightSame(mem, k.pm.mem, spaces[i].pt.root, spaces[i].areas, st[i].trampoline);
      }
    }
  }

  /** `from_existed_user`: the copy has equal areas, permissions and contents. */
  method PerformFork(k: Kernel, spaces: seq<MemorySet>, ghost st: seq<Space>, trampoline: nat, i: nat)
    returns (ok: bool, spaces': seq<MemorySet>)
    requires k.Valid() && Models(k, spaces, st) && Alive(st, i) && trampoline < PPN_COUNT
    modifies k, k.pm
    ensures old(k.pm.Free()) >= StepCost(st, ForkSpace(i)) ==> ok
    ensures ok ==> k.Valid() && Models(k, spaces', Step(st, ForkSpace(i)))
    ensures ok ==> k.pm.Free() + StepCost(st, ForkSpace(i)) >= old(k.pm.Free())
    ensures ok ==> forall s | s in k.spaces && s !in old(k.spaces) :: fresh(s) && fresh(s.pt)
    ensures ok && Copyable(st[i].areas) ==>
              |spaces'| == |spaces| + 1 && Copies(k.pm.mem, spaces[i], spaces'[|spaces|])
  {
    hide Kernel.Valid, Mapping, PhysicalMemory.Valid, PhysicalMemory.Live, PhysicalMemory.Free, MemorySet.Valid,
        Tight, SameMappings, CopyOf, FramesEnough;
    ghost var mem := k.pm.mem;
    assert Agrees(mem, spaces[i], st[i]);
    CopyableShapes(spaces[i].areas);
    EnoughShapes(spaces[i].areas);
    ok, spaces' := true, spaces;
    if Copyable(spaces[i].areas) {
      var child := k.ForkSpace(spaces[i], trampoline);
      ok := child != null;
      if ok {
        spaces' := spaces + [child];
        forall j | 0 <= j < |st| && st[j].Present? ensures Agrees(k.pm.mem, spaces'[j], st[j]) {
          assert Agrees(mem, spaces[j], st[j]);
          TightSame(mem, k.pm.mem, spaces[j].pt.root, spaces[j].areas, st[j].trampoline);
        }
      }
    }
  }

  ghost predicate Copies(mem: map<nat, Frame>, parent: MemorySet, child: MemorySet)
    reads parent, child
  {
    |child.areas| == |parent.areas| && forall j | 0 <= j < |parent.areas| ::
      CopyOf(mem, parent.areas[j], child.areas[j])
  }

  /** An operation on the areas of one space. */
  method PerformChange(k: Kernel, spaces: seq<MemorySet>, ghost st: seq<Space>, i: nat, op: AreaOp)
    returns (ok: bool)
    requires k.Valid() && Models(k, spaces, st) && Alive(st, i)
    modifies k.pm, spaces[i], spaces[i].pt
    ensures old(k.pm.Free()) >= StepCost(st, ChangeSpace(i, op)) ==> ok
    ensures ok ==> k.Valid() && Models(k, spaces, Step(st, ChangeSpace(i, op)))
    ensures ok ==> k.pm.Free() + StepCost(st, ChangeSpace(i, op)) >= old(k.pm.Free())
  {
    hide Kernel.Valid, Mapping, PhysicalMemory.Valid, PhysicalMemory.Live, PhysicalMemory.Free, MemorySet.Valid,
        Tight, SameMappings, Applicable, Fits, Apply, AreaCost;
    var s := spaces[i];
    ghost var mem, areas := k.pm.mem, s.areas;
    assert Agrees(mem, s, st[i]);
    SpaceIsValid(k, s);
    FitsIsApplicable(k.pm, s, st[i].trampoline, op);
    CostShapes(areas, op);
    var b := Applies(s, k.pm, op);
    ok := true;
    if b {
      ok := k.Change(s, op);
      if ok {
        forall j | 0 <= j < |st| && j != i && st[j].Present? ensures Agrees(k.pm.mem, spaces[j], st[j]) {
          assert old(Agrees(k.pm.mem, spaces[j], st[j]));
          assert spaces[j] in k.spaces - {s};
          TightSame(mem, k.pm.mem, spaces[j].pt.root, spaces[j].areas, st[j].trampoline);
        }
      }
    }
  }

  /** Dropping an address space. */
  method PerformDrop(k: Kernel, spaces: seq<MemorySet>, ghost st: seq<Space>, i: nat)
    requires k.Valid() && Models(k, spaces, st) && Alive(st, i)
    modifies k, k.pm
    ensures k.Valid() && Models(k, spaces, Step(st, DropSpace(i))) && k.pm.Free() >= old(k.pm.Free())
    ensures k.spaces == old(k.spaces) - {spaces[i]}
  {
    hide Kernel.Valid, Mapping, PhysicalMemory.Valid, PhysicalMemory.Live, PhysicalMemory.Free, MemorySet.Valid, Tight;
    k.Discard(spaces[i]);
    forall j | 0 <= j < |st| && j != i && st[j].Present? ensures Agrees(k.pm.mem, spaces[j], st[j]) {
      assert old(Agrees(k.pm.mem, spaces[j], st[j]));
    }
  }

  /** One step. It fails only for want of frames, which makes the source panic. */
  method Perform(k: Kernel, spaces: seq<MemorySet>, ghost st: seq<Space>, trampoline: nat, op: KernelOp)
    returns (ok: bool, spaces': seq<MemorySet>)
    requires k.Valid() && Models(k, spaces, st) && trampoline < PPN_COUNT
    modifies k, k.pm, k.spaces, set s: MemorySet | s in k.spaces :: s.pt
    ensures old(k.pm.Free()) >= StepCost(st, op) ==> ok
    ensures ok ==> k.Valid() && Models(k, spaces', Step(st, op))
    ensures ok ==> k.pm.Free() + StepCost(st, op) >= old(k.pm.Free())
    ensures ok ==> forall s | s in k.spaces && s !in old(k.spaces) :: fresh(s) && fresh(s.pt)
  {
    hide Kernel.Valid, Mapping, PhysicalMemory.Valid, PhysicalMemory.Live, PhysicalMemory.Free, MemorySet.Valid,
        Agrees, Fits, Apply, AreaCost, FramesEnough, Copyable;
    ok, spaces' := true, spaces;
    match op {
      case CreateSpace =>
        ok, spaces' := PerformCreate(k, spaces, st);
      case ForkSpace(i) =>
        if i < |spaces| && spaces[i] in k.spaces {
          ok, spaces' := PerformFork(k, spaces, st, trampoline, i);
        }
      case ChangeSpace(i, a) =>
        if i < |spaces| && spaces[i] in k.spaces {
          ok := PerformChange(k, spaces, st, i, a);
        }
      case DropSpace(i) =>
        if i < |spaces| && spaces[i] in k.spaces {
          PerformDrop(k, spaces, st, i);
        }
    }
  }

  /** Every history, from an allocator that has handed out nothing. The run makes `n` steps, and stops
      early only where the frames run out. After all of them the kernel holds the spaces that the
      steps describe, with exactly their pages mapped, and every frame ever handed out is recycled,
      or is a table of one space, or backs one page of one space. */
  method Run(pm: PhysicalMemory, trampoline: nat, ops: seq<KernelOp>)
    returns (n: nat, k: Kernel, spaces: seq<MemorySet>)
    requires pm.Valid() && pm.Live() == {} && trampoline < PPN_COUNT
    modifies pm
    ensures n <= |ops| && k.pm == pm && (n < |ops| ==> old(pm.Free()) < Budget(ops[..n + 1]) <= Budget(ops))
    ensures n == |ops| ==> k.Valid() && Models(k, spaces, Replay(ops))
    ensures n == |ops| ==> forall f: nat | pm.base <= f < pm.current :: k.Accounted(f)
    ensures n == |ops| ==> forall i | 0 <= i < |spaces| && DropSpace(i) !in ops :: spaces[i] in k.spaces
  {
    hide Kernel.Valid, Kernel.Accounted, PhysicalMemory.Valid, PhysicalMemory.Live, PhysicalMemory.Free, Models, Step,
        StepCost;
    k := new Kernel(pm);
    spaces, n := [], 0;
    NothingYet(k, ops);
    while n < |ops|
      invariant 0 <= n <= |ops| && fresh(k) && k.pm == pm && k.Valid() && Models(k, spaces, Replay(ops[..n]))
      invariant pm.Free() + Budget(ops[..n]) >= old(pm.Free())
      invariant forall s | s in k.spaces :: fresh(s) && fresh(s.pt)
    {
      ReplayNext(ops, n);
      var ok;
      ok, spaces := Perform(k, spaces, Replay(ops[..n]), trampoline, ops[n]);
      if !ok {
        BudgetGrows(ops, n + 1);
        return;
      }
      n := n + 1;
    }
    assert ops[..n] == ops;
    forall f: nat | pm.base <= f < pm.current ensures k.Accounted(f) {
      k.Conservation(f);
    }
    AllThere(k, spaces, ops);
  }

  lemma NothingYet(k: Kernel, ops: seq<KernelOp>)
    requires k.spaces == {}
    ensures Models(k, [], Replay(ops[..0])) && Budget(ops[..0]) == 0
  {
    assert ops[..0] == [];
  }

  lemma AllThere(k: Kernel, spaces: seq<MemorySet>, ops: seq<KernelOp>)
    requires Models(k, spaces, Replay(ops))
    ensures forall i | 0 <= i < |spaces| && DropSpace(i) !in ops :: spaces[i] in k.spaces
  {
    hide Agrees, Replay;
    forall i: nat | i < |spaces| && DropSpace(i) !in ops ensures spaces[i] in k.spaces {
      StillThere(ops, i);
    }
  }
}
