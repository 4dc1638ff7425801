/** Several address spaces over one frame allocator: fork, drop and conservation of frames
    (os/src/mm/memory_set.rs, os/src/mm/frame_allocator.rs). */
module KernelMemory {
  import opened Basics
  import opened Address
  import opened PageTables
  import opened MemorySets

  const TRAMPOLINE_VPN: nat := VPN_COUNT - 1

  /** Writing a data frame disturbs neither tables nor areas. */
  lemma DataWrite(mem: map<nat, Frame>, live: set<nat>, root: nat, owner: map<nat, seq<nat>>, areas: seq<MapArea>,
                  pages: map<nat, nat>, f: nat, x: Frame)
    requires SpaceOk(mem, live, root, owner, areas, pages) && f !in owner && f in mem
    ensures SpaceOk(mem[f := x], live, root, owner, areas, pages)
    ensures forall w: nat :: Mapping(mem[f := x], root, w) == Mapping(mem, root, w)
  {
    hide Mapping, EntryOf, TreeOk;
    MappingFrame(mem, mem[f := x], root, owner);
    forall i | 0 <= i < |areas| ensures AreaOk(mem[f := x], root, areas[i]) {
      assert AreaOk(mem, root, areas[i]);
    }
  }

  /** `copy_from_slice` on whole frames, into a frame that holds no page table. */
  method CopyFrame(pm: PhysicalMemory, dst: nat, src: nat, ghost parent: MemorySet, ghost child: MemorySet)
    requires parent.Valid(pm) && child.Valid(pm) && dst in pm.mem && src in pm.mem
    requires dst !in parent.pt.owner && dst !in child.pt.owner
    modifies pm`mem
    ensures parent.Valid(pm) && child.Valid(pm)
    ensures pm.mem == old(pm.mem)[dst := old(pm.mem)[src]] && pm.Live() == old(pm.Live()) && pm.Free() == old(pm.Free())
    ensures forall w: nat :: Mapping(pm.mem, child.pt.root, w) == old(Mapping(pm.mem, child.pt.root, w))
  {
    hide Mapping, SpaceOk, TreeOk;
    ghost var mem := pm.mem;
    DataWrite(mem, pm.Live(), parent.pt.root, parent.pt.owner, parent.areas, parent.pages, dst, mem[src]);
    DataWrite(mem, pm.Live(), child.pt.root, child.pt.owner, child.areas, child.pages, dst, mem[src]);
    SpaceTree(mem[dst := mem[src]], pm.Live(), parent.pt.root, parent.pt.owner, parent.areas, parent.pages);
    SpaceTree(mem[dst := mem[src]], pm.Live(), child.pt.root, child.pt.owner, child.areas, child.pages);
    pm.mem := pm.mem[dst := pm.mem[src]];
  }

  lemma SpaceTree(mem: map<nat, Frame>, live: set<nat>, root: nat, owner: map<nat, seq<nat>>, areas: seq<MapArea>,
            pages: map<nat, nat>)
    requires SpaceOk(mem, live, root, owner, areas, pages)
    ensures TreeOk(mem, root, owner)
  {
  }

  /** Area `b` is a copy of area `a`: same range and permissions, same contents, other frames. */
  ghost predicate CopyOf(mem: map<nat, Frame>, a: MapArea, b: MapArea) {
    && b.start == a.start && b.end == a.end && b.perm == a.perm && b.framed == a.framed
    && forall vpn: nat | a.Has(vpn) ::
      vpn in a.frames && vpn in b.frames && SameContents(mem, a.frames[vpn], b.frames[vpn])
  }

  ghost predicate SameContents(mem: map<nat, Frame>, f: nat, g: nat) {
    f in mem && g in mem && mem[f] == mem[g]
  }

  /** Every page mapped in the copy is the trampoline or lies in one of the areas copied so far. */
  ghost predicate OnlyCopied(mem: map<nat, Frame>, root: nat, areas: seq<MapArea>) {
    forall w: nat | w < TRAMPOLINE_VPN && (forall j | 0 <= j < |areas| :: !areas[j].Has(w)) ::
      Mapping(mem, root, w).None?
  }

  /** The inner loop of `from_existed_user`: the pages of area `k`, by translating both sides. */
  method CopyPages(parent: MemorySet, child: MemorySet, pm: PhysicalMemory, k: nat)
    requires parent.Valid(pm) && child.Valid(pm) && parent.Owned() !! child.Owned()
    requires k < |parent.areas| && k < |child.areas| && parent.areas[k].framed
    requires child.areas[k] == parent.areas[k].(frames := child.areas[k].frames)
    modifies pm`mem
    ensures parent.Valid(pm) && child.Valid(pm) && pm.Live() == old(pm.Live()) && pm.mem.Keys == old(pm.mem).Keys &&
        pm.Free() == old(pm.Free())
    ensures forall f | f in pm.mem && (f !in child.pages || child.pages[f] !in child.areas[k].frames) ::
        pm.mem[f] == old(pm.mem)[f]
    ensures forall w: nat :: Mapping(pm.mem, child.pt.root, w) == old(Mapping(pm.mem, child.pt.root, w))
    ensures CopyOf(pm.mem, parent.areas[k], child.areas[k])
  {
    hide Mapping, PhysicalMemory.Valid, PhysicalMemory.Live, PhysicalMemory.Free, SpaceOk, PageTable.Valid;
    ghost var a, b := parent.areas[k], child.areas[k];
    SpaceFacts(pm.mem, pm.Live(), parent.pt.root, parent.pt.owner, parent.areas, parent.pages);
    SpaceFacts(pm.mem, pm.Live(), child.pt.root, child.pt.owner, child.areas, child.pages);
    RangeOk(pm.mem, parent.pt.root, parent.areas, k);
    assert Paired(a, b, parent.pages, child.pages) by {
      forall v: nat | a.Has(v)
        ensures v in a.frames && v in b.frames && a.frames[v] in parent.pages && b.frames[v] in child.pages &&
        child.pages[b.frames[v]] == v {
        PageFrame(parent, pm, k, v);
        PageFrame(child, pm, k, v);
      }
    }
    hide Paired, Copied;
    assert Copied(pm.mem, a, b, a.start) by { NoneCopied(pm.mem, a, b); }
    var vpn := parent.areas[k].start;
    while vpn < parent.areas[k].end
      invariant a.start <= vpn <= a.end && parent.Valid(pm) && child.Valid(pm)
      invariant pm.Live() == old(pm.Live()) && pm.mem.Keys == old(pm.mem).Keys && pm.Free() == old(pm.Free())
      invariant forall f | f in pm.mem && (f !in child.pages || child.pages[f] !in b.frames) ::
          pm.mem[f] == old(pm.mem)[f]
      invariant forall w: nat :: Mapping(pm.mem, child.pt.root, w) == old(Mapping(pm.mem, child.pt.root, w))
      invariant Copied(pm.mem, a, b, vpn)
    {
      ghost var mem := pm.mem;
      CopyPage(parent, child, pm, k, vpn);
      CopyNext(mem, a, b, parent.pages, child.pages, vpn);
      vpn := vpn + 1;
    }
    AllCopied(pm.mem, a, b);
  }

  /** The frames of `a` and `b` belong to different spaces, and those of `b` are one per page. */
  ghost predicate Paired(a: MapArea, b: MapArea, pages: map<nat, nat>, pages': map<nat, nat>) {
    && pages.Keys !! pages'.Keys
    && forall v: nat | a.Has(v) ::
      v in a.frames && v in b.frames && a.frames[v] in pages && b.frames[v] in pages' && pages'[b.frames[v]] == v
  }

  /** The pages of the area below `n` are copied. */
  ghost predicate Copied(mem: map<nat, Frame>, a: MapArea, b: MapArea, n: nat) {
    forall v: nat | a.Has(v) && v < n :: v in a.frames && v in b.frames && SameContents(mem, a.frames[v], b.frames[v])
  }

  lemma NoneCopied(mem: map<nat, Frame>, a: MapArea, b: MapArea)
    ensures Copied(mem, a, b, a.start)
  {
  }

  lemma AllCopied(mem: map<nat, Frame>, a: MapArea, b: MapArea)
    requires Copied(mem, a, b, a.end) && b == a.(frames := b.frames)
    ensures CopyOf(mem, a, b)
  {
  }

  lemma CopyNext(mem: map<nat, Frame>, a: MapArea, b: MapArea, pages: map<nat, nat>, pages': map<nat, nat>, n: nat)
    requires Paired(a, b, pages, pages') && Copied(mem, a, b, n) && a.Has(n) && a.frames[n] in mem && b.frames[n] in mem
    ensures Copied(mem[b.frames[n] := mem[a.frames[n]]], a, b, n + 1)
  {
  }

  method CopyPage(parent: MemorySet, child: MemorySet, pm: PhysicalMemory, k: nat, vpn: nat)
    requires parent.Valid(pm) && child.Valid(pm) && parent.Owned() !! child.Owned()
    requires k < |parent.areas| && k < |child.areas| && parent.areas[k].framed && parent.areas[k].Has(vpn)
    requires child.areas[k] == parent.areas[k].(frames := child.areas[k].frames)
    modifies pm`mem
    ensures parent.Valid(pm) && child.Valid(pm) && pm.Live() == old(pm.Live()) && pm.Free() == old(pm.Free())
    ensures vpn in parent.areas[k].frames && vpn in child.areas[k].frames
    ensures
      var src, dst := parent.areas[k].frames[vpn], child.areas[k].frames[vpn];
      && src in parent.pages && dst in child.pages && child.pages[dst] == vpn && src in old(pm.mem) &&
        dst in old(pm.mem)
      && pm.mem == old(pm.mem)[dst := old(pm.mem)[src]]
    ensures forall w: nat :: Mapping(pm.mem, child.pt.root, w) == old(Mapping(pm.mem, child.pt.root, w))
  {
    hide Mapping, PhysicalMemory.Valid, PhysicalMemory.Live, PhysicalMemory.Free, SpaceOk, IsValid, PpnOf,
        LeafTable, TreeOk, Distinct, Members;
    var s := parent.pt.Translate(pm, vpn);
    var d := child.pt.Translate(pm, vpn);
    PageEntry(parent, pm, k, vpn);
    PageEntry(child, pm, k, vpn);
    assert child.areas[k].frames[vpn] !in parent.Owned();
    CopyFrame(pm, PpnOf(d.value), PpnOf(s.value), parent, child);
  }

  lemma RangeOk(mem: map<nat, Frame>, root: nat, areas: seq<MapArea>, k: nat)
    requires AreasOk(mem, root, areas) && k < |areas|
    ensures areas[k].start <= areas[k].end <= VPN_COUNT
  {
    assert AreaOk(mem, root, areas[k]);
  }

  lemma PageFrame(s: MemorySet, pm: PhysicalMemory, k: nat, vpn: nat)
    requires SpaceOk(pm.mem, pm.Live(), s.pt.root, s.pt.owner, s.areas, s.pages) && k < |s.areas| &&
        s.areas[k].framed && s.areas[k].Has(vpn)
    ensures vpn in s.areas[k].frames && s.areas[k].frames[vpn] in s.pages && s.pages[s.areas[k].frames[vpn]] == vpn
    ensures s.areas[k].frames[vpn] in pm.mem && s.areas[k].frames[vpn] !in s.pt.owner
  {
    hide Mapping, TreeOk, EntryOf, PhysicalMemory.Live;
    assert AreaOk(pm.mem, s.pt.root, s.areas[k]);
    AreaFrames(pm.mem, pm.Live(), s.pt.root, s.pt.owner, s.areas, s.pages, k, vpn);
  }

  lemma AreaEntry(mem: map<nat, Frame>, root: nat, areas: seq<MapArea>, k: nat, vpn: nat)
    requires AreasOk(mem, root, areas) && k < |areas| && areas[k].framed && areas[k].Has(vpn)
    ensures vpn in areas[k].frames && Mapping(mem, root, vpn) == Some(Pte(areas[k].frames[vpn], WithV(areas[k].perm)))
  {
    assert AreaOk(mem, root, areas[k]);
  }

  /** The table translates a page of a Framed area to that page's frame. */
  lemma PageEntry(s: MemorySet, pm: PhysicalMemory, k: nat, vpn: nat)
    requires s.Valid(pm)
    requires k < |s.areas| && s.areas[k].framed && s.areas[k].Has(vpn)
    ensures vpn in s.areas[k].frames && s.areas[k].frames[vpn] in s.pages && s.pages[s.areas[k].frames[vpn]] == vpn
    ensures s.areas[k].frames[vpn] in pm.mem && s.areas[k].frames[vpn] !in s.pt.owner
    ensures Mapping(pm.mem, s.pt.root, vpn).Some?
    ensures PpnOf(Mapping(pm.mem, s.pt.root, vpn).value) == s.areas[k].frames[vpn]
    ensures FlagsOf(Mapping(pm.mem, s.pt.root, vpn).value) == WithV(s.areas[k].perm)
  {
    hide Mapping, TreeOk, Pte, PpnOf, FlagsOf, WithV, AreasOk, PagesOk;
    PageFrame(s, pm, k, vpn);
    AreaEntry(pm.mem, s.pt.root, s.areas, k, vpn);
    PteRoundTrip(s.areas[k].frames[vpn], WithV(s.areas[k].perm));
  }

  /** `map_trampoline`, which no area records. */
  method MapTrampoline(s: MemorySet, pm: PhysicalMemory, ppn: nat) returns (ok: bool)
    requires s.Valid(pm) && s.areas == [] && s.pages == map[] && ppn < PPN_COUNT
    requires forall w: nat | w < VPN_COUNT :: Mapping(pm.mem, s.pt.root, w).None?
    modifies s.pt, pm
    ensures (old(pm.Free()) >= 2 ==> ok) && (ok ==> pm.Free() >= old(pm.Free()) - 2)
    ensures ok ==>
              && s.Valid(pm) && Confined(old(pm.mem), old(pm.Live()), old(s.Owned()), pm.mem, pm.Live(), s.Owned())
              && OnlyCopied(pm.mem, s.pt.root, []) &&
                Mapping(pm.mem, s.pt.root, TRAMPOLINE_VPN) == Some(Pte(ppn, WithV(R + X)))
              && Grants(Mapping(pm.mem, s.pt.root, TRAMPOLINE_VPN).value, ppn, R + X)
  {
    hide Mapping, PhysicalMemory.Valid, PhysicalMemory.Live, PhysicalMemory.Free, TreeOk, WithV, Pte, Distinct, Members;
    ok := s.pt.Map(pm, TRAMPOLINE_VPN, ppn, R + X);
    if ok {
      LiveInMem(pm);
      assert s.Owned() == s.pt.owner.Keys && old(s.Owned()) == old(s.pt.owner.Keys);
    }
  }

  /** A bound on the frames it takes to map an area: for every page its frame and two tables. */
  function PageCost(a: MapArea): nat {
    if a.start <= a.end then 3 * (a.end - a.start) else 0
  }

  /** An iteration of the outer loop of `from_existed_user`. */
  method ForkArea(parent: MemorySet, child: MemorySet, pm: PhysicalMemory, k: nat) returns (ok: bool)
    requires parent.Valid(pm) && child.Valid(pm) && parent.Owned() !! child.Owned() && parent != child &&
        parent.pt != child.pt
    requires |child.areas| == k < |parent.areas| && parent.areas[k].framed && !parent.areas[k].Has(TRAMPOLINE_VPN)
    requires OnlyCopied(pm.mem, child.pt.root, parent.areas[..k])
    modifies child, child.pt, pm
    ensures old(pm.Free()) >= PageCost(parent.areas[k]) ==> ok
    ensures ok ==> pm.Free() + PageCost(parent.areas[k]) >= old(pm.Free())
    ensures ok ==>
              && parent.Valid(pm) && child.Valid(pm) && parent.Owned() !! child.Owned()
              && |child.areas| == k + 1 && child.areas[..k] == old(child.areas) &&
                CopyOf(pm.mem, parent.areas[k], child.areas[k])
              && OnlyCopied(pm.mem, child.pt.root, parent.areas[..k + 1])
              && Mapping(pm.mem, child.pt.root, TRAMPOLINE_VPN) == old(Mapping(pm.mem, child.pt.root, TRAMPOLINE_VPN))
              && Confined(old(pm.mem), old(pm.Live()), old(child.Owned()), pm.mem, pm.Live(), child.Owned())
              && (forall f | f in old(child.pages) :: f in old(pm.mem) && f in pm.mem && pm.mem[f] == old(pm.mem)[f])
  {
    hide Mapping, PhysicalMemory.Valid, PhysicalMemory.Live, PhysicalMemory.Free, TreeOk, Distinct, Members,
        SpaceOk, OnlyCopied, CopyOf;
    ghost var m0, l0 := pm.mem, pm.Live();
    SpaceFacts(m0, l0, parent.pt.root, parent.pt.owner, parent.areas, parent.pages);
    SpaceFacts(m0, l0, child.pt.root, child.pt.owner, child.areas, child.pages);
    var a := parent.areas[k];
    RangeOk(m0, parent.pt.root, parent.areas, k);
    Uncopied(m0, parent.pt.root, parent.areas, k, child.pt.root);
    ok := child.Push(pm, MapArea(a.start, a.end, map[], a.framed, a.perm));
    if !ok {
      return;
    }
    ghost var m1, l1, own1 := pm.mem, pm.Live(), child.Owned();
    LiveInMem(pm);
    Bystander(m0, l0, old(child.Owned()), m1, l1, own1, parent.pt.root, parent.pt.owner, parent.areas, parent.pages);
    SpaceTree(m1, l1, parent.pt.root, parent.pt.owner, parent.areas, parent.pages);
    SpaceFacts(m1, l1, parent.pt.root, parent.pt.owner, parent.areas, parent.pages);
    SpaceFacts(m1, l1, child.pt.root, child.pt.owner, child.areas, child.pages);
    CopyPages(parent, child, pm, k);
    assert Confined(m0, l0, old(child.Owned()), pm.mem, pm.Live(), child.Owned());
    assert parent.areas[..k + 1] == parent.areas[..k] + [a];
    OneMoreCopied(m0, pm.mem, child.pt.root, parent.areas[..k], a);
    forall f | f in old(child.pages) ensures f in m0 && f in pm.mem && pm.mem[f] == m0[f] {
      OldPage(m0, l0, old(child.areas), old(child.pages), child.pt.root, old(child.pt.owner), m1, l1,
        child.pt.owner, child.areas, child.pages, k, f);
    }
  }

  lemma OneMoreCopied(mem: map<nat, Frame>, mem': map<nat, Frame>, root: nat, areas: seq<MapArea>, a: MapArea)
    requires OnlyCopied(mem, root, areas)
    requires forall w: nat | w < VPN_COUNT && !a.Has(w) :: Mapping(mem', root, w) == Mapping(mem, root, w)
    ensures OnlyCopied(mem', root, areas + [a])
  {
    hide Mapping;
    var areas' := areas + [a];
    forall w: nat | w < TRAMPOLINE_VPN && (forall j | 0 <= j < |areas'| :: !areas'[j].Has(w))
      ensures Mapping(mem', root, w).None? {
      assert !areas'[|areas|].Has(w);
      assert forall j | 0 <= j < |areas| :: !areas[j].Has(w) by {
        assert forall j | 0 <= j < |areas| :: areas[j] == areas'[j];
      }
    }
  }

  /** Pages of area `k` are not yet mapped in the copy, areas being apart. */
  lemma Uncopied(mem: map<nat, Frame>, root: nat, areas: seq<MapArea>, k: nat, root': nat)
    requires AreasOk(mem, root, areas) && k < |areas| && !areas[k].Has(TRAMPOLINE_VPN)
    requires OnlyCopied(mem, root', areas[..k])
    ensures forall w: nat | areas[k].Has(w) :: Mapping(mem, root', w).None?
  {
    hide Mapping, EntryOf;
    assert AreaOk(mem, root, areas[k]);
    forall w: nat | areas[k].Has(w) ensures Mapping(mem, root', w).None? {
      forall j | 0 <= j < k ensures !areas[..k][j].Has(w) {
        assert Apart(areas[j], areas[k]);
      }
      assert w != TRAMPOLINE_VPN;
    }
  }

  /** A page copied earlier is not a page of the area copied now. */
  lemma OldPage(m0: map<nat, Frame>, l0: set<nat>, areas0: seq<MapArea>, pages0: map<nat, nat>, root: nat,
            owner0: map<nat, seq<nat>>,
                m1: map<nat, Frame>, l1: set<nat>, owner1: map<nat, seq<nat>>, areas1: seq<MapArea>,
                  pages1: map<nat, nat>, k: nat, f: nat)
    requires SpaceOk(m0, l0, root, owner0, areas0, pages0) && SpaceOk(m1, l1, root, owner1, areas1, pages1)
    requires |areas0| == k && |areas1| == k + 1 && areas1[..k] == areas0 && f in pages0
    ensures f in m0 && f in pages1 && pages1[f] !in areas1[k].frames
  {
    hide Mapping, TreeOk, EntryOf;
    assert Backs(areas0, pages0[f], f);
    var j :| 0 <= j < k && pages0[f] in areas0[j].frames && areas0[j].frames[pages0[f]] == f;
    assert areas1[j] == areas1[..k][j] == areas0[j];
    assert Backs(areas1, pages0[f], f);
    assert AreaOk(m1, root, areas1[j]) && AreaOk(m1, root, areas1[k]) && Apart(areas1[j], areas1[k]);
  }

  lemma FramesListed(mem: map<nat, Frame>, live: set<nat>, root: nat, owner: map<nat, seq<nat>>, areas: seq<MapArea>,
            pages: map<nat, nat>)
    requires SpaceOk(mem, live, root, owner, areas, pages)
    ensures forall i, v | 0 <= i < |areas| && v in areas[i].frames :: areas[i].frames[v] in pages
  {
    forall i, v | 0 <= i < |areas| && v in areas[i].frames ensures areas[i].frames[v] in pages {
      AreaFrames(mem, live, root, owner, areas, pages, i, v);
    }
  }

  lemma StillCopy(mem: map<nat, Frame>, mem': map<nat, Frame>, a: MapArea, b: MapArea, mine: map<nat, nat>,
            yours: map<nat, nat>)
    requires CopyOf(mem, a, b)
    requires forall v | v in a.frames :: a.frames[v] in mine
    requires forall v | v in b.frames :: b.frames[v] in yours
    requires forall f | (f in mine || f in yours) && f in mem :: f in mem' && mem'[f] == mem[f]
    ensures CopyOf(mem', a, b)
  {
    forall vpn: nat | a.Has(vpn)
      ensures vpn in a.frames && vpn in b.frames && SameContents(mem', a.frames[vpn], b.frames[vpn]) {
      assert SameContents(mem, a.frames[vpn], b.frames[vpn]);
    }
  }

  /** A bound on the frames a copy takes: the root, two tables for the trampoline, and the areas. */
  function FramesEnough(areas: seq<MapArea>): (n: nat)
    ensures n >= 3
  {
    if areas == [] then 3 else FramesEnough(areas[..|areas| - 1]) + PageCost(areas[|areas| - 1])
  }

  lemma {:induction false} EnoughSplit(areas: seq<MapArea>, k: nat)
    requires k < |areas|
    ensures FramesEnough(areas[..k]) + PageCost(areas[k]) == FramesEnough(areas[..k + 1]) <= FramesEnough(areas)
    decreases |areas|
  {
    assert areas[..k + 1][..k] == areas[..k];
    if k + 1 < |areas| {
      var n := |areas| - 1;
      assert areas[..n][..k + 1] == areas[..k + 1] && areas[..n][..k] == areas[..k];
      EnoughSplit(areas[..n], k);
    } else {
      assert areas[..k + 1] == areas;
    }
  }

  lemma NoneEnough()
    ensures FramesEnough([]) == 3
  {
  }

  lemma NoneFree(pm: PhysicalMemory)
    requires pm.Valid()
    ensures pm.Free() == 0 <==> |pm.recycled| == 0 && pm.current >= pm.end
  {
  }

  /** The start of `from_existed_user`: a bare space with the trampoline. */
  method ForkRoot(parent: MemorySet, pm: PhysicalMemory, trampoline: nat) returns (child: MemorySet?)
    requires parent.Valid(pm) && trampoline < PPN_COUNT
    modifies pm
    ensures old(pm.Free()) >= 3 ==> child != null
    ensures child != null ==>
              && fresh(child) && fresh(child.pt) && child.Valid(pm) && parent.Valid(pm) && child.areas == []
              && parent.Owned() !! child.Owned() && pm.Free() + 3 >= old(pm.Free())
              && Confined(old(pm.mem), old(pm.Live()), {}, pm.mem, pm.Live(), child.Owned())
              && OnlyCopied(pm.mem, child.pt.root, [])
              && Mapping(pm.mem, child.pt.root, TRAMPOLINE_VPN) == Some(Pte(trampoline, WithV(R + X)))
  {
    hide Mapping, PhysicalMemory.Valid, PhysicalMemory.Live, PhysicalMemory.Free, TreeOk, Distinct, Members,
        SpaceOk, Pte, WithV, OnlyCopied;
    ghost var m0, l0 := pm.mem, pm.Live();
    NoneFree(pm);
    if |pm.recycled| == 0 && pm.current >= pm.end {
      return null;
    }
    SpaceFacts(m0, l0, parent.pt.root, parent.pt.owner, parent.areas, parent.pages);
    child := new MemorySet(pm);
    ghost var m1, l1, o1 := pm.mem, pm.Live(), child.Owned();
    var ok := MapTrampoline(child, pm, trampoline);
    if !ok {
      return null;
    }
    ConfinedTrans(m0, l0, {}, m1, l1, o1, pm.mem, pm.Live(), child.Owned());
    LiveInMem(pm);
    Bystander(m0, l0, {}, pm.mem, pm.Live(), child.Owned(), parent.pt.root, parent.pt.owner, parent.areas,
      parent.pages);
    SpaceTree(pm.mem, pm.Live(), parent.pt.root, parent.pt.owner, parent.areas, parent.pages);
  }

  /** `from_existed_user`: the child maps the same pages with the same permissions and contents on
      frames nobody held before; the parent and everyone else keep theirs. Null stands for running
      out of frames. */
  method Fork(parent: MemorySet, pm: PhysicalMemory, trampoline: nat) returns (child: MemorySet?)
    requires parent.Valid(pm) && trampoline < PPN_COUNT
    requires forall i | 0 <= i < |parent.areas| :: parent.areas[i].framed && !parent.areas[i].Has(TRAMPOLINE_VPN)
    modifies pm
    ensures old(pm.Free()) >= FramesEnough(parent.areas) ==> child != null
    ensures child != null ==> pm.Free() + FramesEnough(parent.areas) >= old(pm.Free())
    ensures child != null ==>
              && fresh(child) && fresh(child.pt) && child.Valid(pm) && parent.Valid(pm)
              && Confined(old(pm.mem), old(pm.Live()), {}, pm.mem, pm.Live(), child.Owned())
              && |child.areas| == |parent.areas|
              && (forall i | 0 <= i < |parent.areas| :: CopyOf(pm.mem, parent.areas[i], child.areas[i]))
              && OnlyCopied(pm.mem, child.pt.root, parent.areas)
              && Mapping(pm.mem, child.pt.root, TRAMPOLINE_VPN) == Some(Pte(trampoline, WithV(R + X)))
              && (forall f | f in old(pm.Live()) && f in old(pm.mem) :: f in pm.mem && pm.mem[f] == old(pm.mem)[f])
  {
    hide Mapping, PhysicalMemory.Valid, PhysicalMemory.Live, PhysicalMemory.Free, TreeOk, Distinct, Members,
        SpaceOk, Pte, WithV, CopyOf, OnlyCopied, FramesEnough, PageCost;
    ghost var m0, l0 := pm.mem, pm.Live();
    NoneEnough();
    child := ForkRoot(parent, pm, trampoline);
    if child == null {
      return;
    }
    var k := 0;
    assert parent.areas[..0] == [];
    while k < |parent.areas|
      invariant 0 <= k <= |parent.areas| && fresh(child) && fresh(child.pt)
      invariant parent.Valid(pm) && child.Valid(pm) && parent.Owned() !! child.Owned() && |child.areas| == k
      invariant OnlyCopied(pm.mem, child.pt.root, parent.areas[..k])
      invariant Mapping(pm.mem, child.pt.root, TRAMPOLINE_VPN) == Some(Pte(trampoline, WithV(R + X)))
      invariant Confined(m0, l0, {}, pm.mem, pm.Live(), child.Owned())
      invariant forall i | 0 <= i < k :: CopyOf(pm.mem, parent.areas[i], child.areas[i])
      invariant pm.Free() + FramesEnough(parent.areas[..k]) >= old(pm.Free())
    {
      EnoughSplit(parent.areas, k);
      ghost var mk, lk, ok', areas' := pm.mem, pm.Live(), child.Owned(), child.areas;
      ghost var pages' := child.pages;
      SpaceFacts(mk, lk, child.pt.root, child.pt.owner, child.areas, child.pages);
      SpaceFacts(mk, lk, parent.pt.root, parent.pt.owner, parent.areas, parent.pages);
      FramesListed(mk, lk, child.pt.root, child.pt.owner, areas', pages');
      FramesListed(mk, lk, parent.pt.root, parent.pt.owner, parent.areas, parent.pages);
      var ok := ForkArea(parent, child, pm, k);
      if !ok {
        return null;
      }
      ConfinedTrans(m0, l0, {}, mk, lk, ok', pm.mem, pm.Live(), child.Owned());
      forall i | 0 <= i < k ensures CopyOf(pm.mem, parent.areas[i], child.areas[i]) {
        assert child.areas[i] == child.areas[..k][i];
        StillCopy(mk, pm.mem, parent.areas[i], areas'[i], parent.pages, pages');
      }
      k := k + 1;
    }
    assert parent.areas[..|parent.areas|] == parent.areas;
  }

  /** Dropping trackers gives their frames back, one by one; none of the panics of `dealloc` is met. */
  method DropFrames(pm: PhysicalMemory, frames: seq<nat>)
    requires pm.Valid() && Distinct(frames) && Members(frames) <= pm.Live()
    modifies pm`recycled
    ensures pm.Valid() && pm.Live() == old(pm.Live()) - Members(frames) && pm.Free() >= old(pm.Free())
  {
    hide PhysicalMemory.Valid, PhysicalMemory.Live, PhysicalMemory.Free;
    assert Members(frames[..0]) == {};
    for i := 0 to |frames|
      invariant pm.Valid() && pm.Live() == old(pm.Live()) - Members(frames[..i]) && pm.Free() >= old(pm.Free())
    {
      assert frames[i] in Members(frames) && frames[i] !in Members(frames[..i]);
      pm.Dealloc(frames[i]);
      assert Members(frames[..i + 1]) == Members(frames[..i]) + {frames[i]};
    }
    assert frames[..|frames|] == frames;
  }

  /** The data frames behind a set of pages. */
  ghost function FramesBehind(pages: map<nat, nat>, done: set<nat>): set<nat> {
    set f | f in pages && pages[f] in done
  }

  /** A page has one frame. */
  lemma OneFrame(areas: seq<MapArea>, pages: map<nat, nat>, mem: map<nat, Frame>, root: nat, i: nat, v: nat,
            done: set<nat>)
    requires AreasOk(mem, root, areas) && PagesOk(areas, pages) && i < |areas| && v in areas[i].frames
    ensures areas[i].frames[v] in pages && pages[areas[i].frames[v]] == v
    ensures FramesBehind(pages, done + {v}) == FramesBehind(pages, done) + {areas[i].frames[v]}
  {
    hide Mapping, EntryOf;
    assert Backs(areas, v, areas[i].frames[v]);
    forall g | g in pages && pages[g] == v ensures g == areas[i].frames[v] {
      assert Backs(areas, v, g);
      var j :| 0 <= j < |areas| && v in areas[j].frames && areas[j].frames[v] == g;
      assert AreaOk(mem, root, areas[i]) && AreaOk(mem, root, areas[j]) && areas[i].Has(v) && areas[j].Has(v);
      assert j == i || !Apart(areas[i], areas[j]);
    }
  }

  /** The pages of the areas before `i`. */
  ghost predicate Before(areas: seq<MapArea>, i: nat, v: nat)
    requires i <= |areas|
  {
    exists j | 0 <= j < i :: v in areas[j].frames
  }

  lemma NotBefore(areas: seq<MapArea>, mem: map<nat, Frame>, root: nat, i: nat, v: nat)
    requires AreasOk(mem, root, areas) && i < |areas| && v in areas[i].frames
    ensures !Before(areas, i, v)
  {
    hide Mapping, EntryOf;
    assert AreaOk(mem, root, areas[i]) && areas[i].Has(v);
    forall j | 0 <= j < i ensures v !in areas[j].frames {
      assert AreaOk(mem, root, areas[j]) && Apart(areas[j], areas[i]);
    }
  }

  /** The trackers in the areas, area by area. */
  method DropAreas(pm: PhysicalMemory, areas: seq<MapArea>, ghost pages: map<nat, nat>, ghost root: nat)
    requires pm.Valid() && AreasOk(pm.mem, root, areas) && PagesOk(areas, pages) && pages.Keys <= pm.Live()
    modifies pm`recycled
    ensures pm.Valid() && pm.Live() == old(pm.Live()) - pages.Keys && pm.Free() >= old(pm.Free())
  {
    hide Mapping, EntryOf, AreasOk, PagesOk, PhysicalMemory.Valid, PhysicalMemory.Live, PhysicalMemory.Free;
    ghost var mem := pm.mem;
    ghost var done: set<nat> := {};
    for i := 0 to |areas|
      invariant pm.Valid() && pm.Live() == old(pm.Live()) - FramesBehind(pages, done) && pm.Free() >= old(pm.Free())
      invariant forall v :: v in done <==> Before(areas, i, v)
    {
      var keys := areas[i].frames.Keys;
      while keys != {}
        invariant pm.Valid() && pm.Live() == old(pm.Live()) - FramesBehind(pages, done) && keys <= areas[i].frames.Keys
        invariant forall v :: v in done <==> Before(areas, i, v) || v in areas[i].frames.Keys - keys
        invariant pm.Free() >= old(pm.Free())
        decreases keys
      {
        var v :| v in keys;
        NotBefore(areas, mem, root, i, v);
        OneFrame(areas, pages, mem, root, i, v, done);
        pm.Dealloc(areas[i].frames[v]);
        keys, done := keys - {v}, done + {v};
      }
    }
    AllPages(areas, pages, done);
  }

  lemma AllPages(areas: seq<MapArea>, pages: map<nat, nat>, done: set<nat>)
    requires PagesOk(areas, pages) && forall v: nat :: v in done <==> Before(areas, |areas|, v)
    ensures FramesBehind(pages, done) == pages.Keys
  {
    forall f | f in pages ensures pages[f] in done {
      assert Backs(areas, pages[f], f);
    }
  }

  /** Dropping an address space: the tables' trackers, then the areas'. */
  method DropSpace(s: MemorySet, pm: PhysicalMemory)
    requires s.Valid(pm)
    modifies pm
    ensures pm.Valid() && pm.mem == old(pm.mem) && pm.Live() == old(pm.Live()) - s.Owned()
    ensures pm.Free() >= old(pm.Free())
  {
    hide Mapping, PhysicalMemory.Valid, PhysicalMemory.Live, PhysicalMemory.Free, TreeOk, Distinct, Members,
        AreasOk, PagesOk;
    DropFrames(pm, s.pt.frames);
    DropAreas(pm, s.areas, s.pages, s.pt.root);
  }

  /** The address space as it lies in a given memory. */
  ghost predicate SpaceIn(s: MemorySet, mem: map<nat, Frame>, live: set<nat>)
    reads s, s.pt
  {
    && SpaceOk(mem, live, s.pt.root, s.pt.owner, s.areas, s.pages)
    && Distinct(s.pt.frames) && Members(s.pt.frames) == s.pt.owner.Keys
  }

  // What the area operations mean on lists of page ranges.

  datatype AreaOp =
    | Insert(a: MapArea)
    | Remove(start: nat)
    | Append(start: nat, newEnd: nat)
    | Shrink(start: nat, newEnd: nat)

  /** An area without its frames: range, type and permissions. */
  function Shape(a: MapArea): MapArea {
    a.(frames := map[])
  }

  function Shapes(areas: seq<MapArea>): (r: seq<MapArea>)
    ensures |r| == |areas| && forall i | 0 <= i < |r| :: r[i] == Shape(areas[i])
  {
    seq(|areas|, i requires 0 <= i < |areas| => Shape(areas[i]))
  }

  /** What an operation does to the list of areas. */
  function Apply(areas: seq<MapArea>, op: AreaOp): seq<MapArea> {
    match op
    case Insert(a) => areas + [a]
    case Remove(start) =>
      var k := First(areas, start);
      if k < |areas| then areas[..k] + areas[k + 1..] else areas
    case Append(start, newEnd) => Resize(areas, First(areas, start), newEnd)
    case Shrink(start, newEnd) => Resize(areas, First(areas, start), newEnd)
  }

  function Resize(areas: seq<MapArea>, k: nat, newEnd: nat): seq<MapArea> {
    if k < |areas| then areas[k := areas[k].(end := newEnd)] else areas
  }

  /** A bound on the frames an operation takes: three per page that it maps. */
  function AreaCost(areas: seq<MapArea>, op: AreaOp): nat {
    match op
    case Insert(a) => PageCost(a)
    case Append(start, newEnd) =>
      var k := First(areas, start);
      if k < |areas| && areas[k].end <= newEnd then 3 * (newEnd - areas[k].end) else 0
    case _ => 0
  }

  ghost predicate InAreas(areas: seq<MapArea>, w: nat) {
    exists i | 0 <= i < |areas| :: areas[i].Has(w)
  }

  /** Page `w` belongs to an area, or is the trampoline of a space that has one. */
  ghost predicate Covered(areas: seq<MapArea>, trampoline: bool, w: nat) {
    InAreas(areas, w) || (trampoline && w == TRAMPOLINE_VPN)
  }

  /** Exactly the covered pages are mapped, and the trampoline is in no area. */
  ghost predicate Tight(mem: map<nat, Frame>, root: nat, areas: seq<MapArea>, trampoline: bool) {
    && (forall w: nat | w < VPN_COUNT :: Mapping(mem, root, w).Some? <==> Covered(areas, trampoline, w))
    && (trampoline ==> !InAreas(areas, TRAMPOLINE_VPN))
  }

  /** What the source asks for: fresh, unmapped ranges to insert or append, and ranges that the
      assertion in `SimpleRange::new` accepts. */
  ghost predicate Applicable(pm: PhysicalMemory, s: MemorySet, op: AreaOp)
    reads pm, s, s.pt
  {
    match op
    case Insert(a) =>
      && a.frames == map[] && a.start <= a.end <= VPN_COUNT
      && forall w: nat | a.Has(w) :: Mapping(pm.mem, s.pt.root, w).None?
    case Remove(_) => true
    case Append(start, newEnd) =>
      var k := First(s.areas, start);
      k < |s.areas| ==>
        && s.areas[k].end <= newEnd <= VPN_COUNT
        && forall w: nat | s.areas[k].end <= w < newEnd :: Mapping(pm.mem, s.pt.root, w).None?
    case Shrink(start, newEnd) =>
      var k := First(s.areas, start);
      k < |s.areas| ==> start <= newEnd <= s.areas[k].end
  }

  /** The same in terms of the list of areas. */
  ghost predicate Fits(areas: seq<MapArea>, trampoline: bool, op: AreaOp) {
    match op
    case Insert(a) =>
      && a.frames == map[] && a.start <= a.end <= VPN_COUNT
      && forall w: nat | a.Has(w) :: !Covered(areas, trampoline, w)
    case Remove(_) => true
    case Append(start, newEnd) =>
      var k := First(areas, start);
      k < |areas| ==>
        && areas[k].end <= newEnd <= VPN_COUNT
        && forall w: nat | areas[k].end <= w < newEnd :: !Covered(areas, trampoline, w)
    case Shrink(start, newEnd) =>
      var k := First(areas, start);
      k < |areas| ==> start <= newEnd <= areas[k].end
  }

  lemma FirstOfShapes(areas: seq<MapArea>, start: nat)
    ensures First(Shapes(areas), start) == First(areas, start)
  {
  }

  lemma CoveredShapes(areas: seq<MapArea>, trampoline: bool, w: nat)
    ensures Covered(Shapes(areas), trampoline, w) <==> Covered(areas, trampoline, w)
  {
    if InAreas(areas, w) {
      var i :| 0 <= i < |areas| && areas[i].Has(w);
      assert Shapes(areas)[i].Has(w);
    }
    if InAreas(Shapes(areas), w) {
      var i :| 0 <= i < |areas| && Shapes(areas)[i].Has(w);
      assert areas[i].Has(w);
    }
  }

  /** In a tight space the table says the same as the list of areas. */
  lemma FitsIsApplicable(pm: PhysicalMemory, s: MemorySet, trampoline: bool, op: AreaOp)
    requires Tight(pm.mem, s.pt.root, s.areas, trampoline)
    ensures Applicable(pm, s, op) <==> Fits(Shapes(s.areas), trampoline, op)
  {
    hide Mapping, InAreas, Covered, First;
    forall w: nat ensures Covered(Shapes(s.areas), trampoline, w) <==> Covered(s.areas, trampoline, w) {
      CoveredShapes(s.areas, trampoline, w);
    }
    match op
    case Append(start, _) => FirstOfShapes(s.areas, start);
    case Shrink(start, _) => FirstOfShapes(s.areas, start);
    case _ =>
  }

  /** Mapping or unmapping the pages from `lo` to `hi` together with their place in an area. */
  lemma TightChange(mem: map<nat, Frame>, mem': map<nat, Frame>, root: nat, areas: seq<MapArea>,
            areas': seq<MapArea>, trampoline: bool, lo: nat, hi: nat, added: bool)
    requires Tight(mem, root, areas, trampoline)
    requires forall w: nat | w < VPN_COUNT && !(lo <= w < hi) :: Mapping(mem', root, w) == Mapping(mem, root, w)
    requires forall w: nat | w < VPN_COUNT && lo <= w < hi :: Mapping(mem', root, w).Some? <==> added
    requires forall w: nat :: InAreas(areas', w) <==> if lo <= w < hi then added else InAreas(areas, w)
    requires trampoline ==> !(lo <= TRAMPOLINE_VPN < hi)
    ensures Tight(mem', root, areas', trampoline)
  {
    hide Mapping, InAreas;
  }

  lemma AreaMapped(mem: map<nat, Frame>, live: set<nat>, root: nat, owner: map<nat, seq<nat>>, areas: seq<MapArea>,
            pages: map<nat, nat>, k: nat)
    requires SpaceOk(mem, live, root, owner, areas, pages) && k < |areas|
    ensures areas[k].start <= areas[k].end <= VPN_COUNT
    ensures forall w: nat | areas[k].Has(w) :: Mapping(mem, root, w).Some?
    ensures forall i, w: nat | 0 <= i < |areas| && i != k && areas[k].Has(w) :: !areas[i].Has(w)
  {
    hide Mapping, TreeOk, PagesOk, EntryOf;
    assert AreaOk(mem, root, areas[k]);
    forall i, w: nat | 0 <= i < |areas| && i != k && areas[k].Has(w) ensures !areas[i].Has(w) {
      assert Apart(areas[k], areas[i]);
    }
  }

  /** The trampoline is mapped, so it lies in no range of unmapped pages. */
  lemma TrampolineMapped(mem: map<nat, Frame>, root: nat, areas: seq<MapArea>, trampoline: bool, lo: nat, hi: nat)
    requires Tight(mem, root, areas, trampoline) && forall w: nat | lo <= w < hi :: Mapping(mem, root, w).None?
    ensures trampoline ==> !(lo <= TRAMPOLINE_VPN < hi)
  {
    hide Mapping;
    assert Covered(areas, trampoline, TRAMPOLINE_VPN) <==> Mapping(mem, root, TRAMPOLINE_VPN).Some?;
  }

  /** Adding, dropping or resizing one area changes what is in areas by its pages. */
  lemma InAreasInsert(areas: seq<MapArea>, a: MapArea)
    ensures forall w: nat :: InAreas(areas + [a], w) <==> a.Has(w) || InAreas(areas, w)
  {
    forall w: nat ensures InAreas(areas + [a], w) <==> a.Has(w) || InAreas(areas, w) {
      var more := areas + [a];
      if a.Has(w) {
        assert more[|areas|].Has(w);
      }
      if InAreas(areas, w) {
        var i :| 0 <= i < |areas| && areas[i].Has(w);
        assert more[i].Has(w);
      }
    }
  }

  lemma InAreasRemove(areas: seq<MapArea>, k: nat)
    requires k < |areas| && forall i, w: nat | 0 <= i < |areas| && i != k && areas[k].Has(w) :: !areas[i].Has(w)
    ensures forall w: nat :: InAreas(areas[..k] + areas[k + 1..], w) <==> InAreas(areas, w) && !areas[k].Has(w)
  {
    var rest := areas[..k] + areas[k + 1..];
    assert forall j | 0 <= j < |rest| :: rest[j] == areas[if j < k then j else j + 1];
    forall w: nat ensures InAreas(rest, w) <==> InAreas(areas, w) && !areas[k].Has(w) {
      if InAreas(areas, w) && !areas[k].Has(w) {
        var i :| 0 <= i < |areas| && areas[i].Has(w);
        assert rest[if i < k then i else i - 1].Has(w);
      }
    }
  }

  lemma InAreasResize(areas: seq<MapArea>, areas': seq<MapArea>, k: nat)
    requires k < |areas| == |areas'| && areas' == areas[k := areas'[k]] && areas'[k].start == areas[k].start
    requires forall i, w: nat | 0 <= i < |areas| && i != k && areas[k].Has(w) :: !areas[i].Has(w)
    ensures forall w: nat | !(areas'[k].end <= w < areas[k].end) && !(areas[k].end <= w < areas'[k].end) ::
              InAreas(areas', w) <==> InAreas(areas, w)
    ensures forall w: nat | areas[k].start <= areas[k].end <= w < areas'[k].end :: InAreas(areas', w)
    ensures forall w: nat | areas[k].start <= areas'[k].end <= w < areas[k].end :: !InAreas(areas', w)
  {
    assert forall i | 0 <= i < |areas| && i != k :: areas'[i] == areas[i];
    forall w: nat | !(areas'[k].end <= w < areas[k].end) && !(areas[k].end <= w < areas'[k].end)
      ensures InAreas(areas', w) <==> InAreas(areas, w)
    {
      assert forall i | 0 <= i < |areas| :: areas'[i].Has(w) <==> areas[i].Has(w);
      if InAreas(areas, w) {
        var i :| 0 <= i < |areas| && areas[i].Has(w);
        assert areas'[i].Has(w);
      }
      if InAreas(areas', w) {
        var i :| 0 <= i < |areas'| && areas'[i].Has(w);
        assert areas[i].Has(w);
      }
    }
    forall w: nat | areas[k].start <= areas[k].end <= w < areas'[k].end ensures InAreas(areas', w) {
      assert areas'[k].Has(w);
    }
    forall w: nat | areas[k].start <= areas'[k].end <= w < areas[k].end ensures !InAreas(areas', w) {
      assert areas[k].Has(w);
    }
  }

  // What the area operations do page by page.

  /** Page `w` is in an area of this type and with these permissions. */
  ghost predicate Rights(areas: seq<MapArea>, w: nat, framed: bool, perm: Flags) {
    exists i | 0 <= i < |areas| :: areas[i].Has(w) && areas[i].framed == framed && areas[i].perm == perm
  }

  ghost predicate Disjoint(areas: seq<MapArea>) {
    && (forall i | 0 <= i < |areas| :: areas[i].start <= areas[i].end <= VPN_COUNT)
    && (forall i, j | 0 <= i < j < |areas| :: Apart(areas[i], areas[j]))
  }

  /** The operation gives page `w` to an area. */
  predicate Gives(areas: seq<MapArea>, op: AreaOp, w: nat, framed: bool, perm: Flags) {
    match op
    case Insert(a) => a.Has(w) && a.framed == framed && a.perm == perm
    case Append(start, newEnd) =>
      var k := First(areas, start);
      k < |areas| && areas[k].end <= w < newEnd && areas[k].framed == framed && areas[k].perm == perm
    case _ => false
  }

  /** The operation takes page `w` away. */
  predicate Takes(areas: seq<MapArea>, op: AreaOp, w: nat) {
    match op
    case Remove(start) =>
      var k := First(areas, start);
      k < |areas| && areas[k].Has(w)
    case Shrink(start, newEnd) =>
      var k := First(areas, start);
      k < |areas| && newEnd <= w < areas[k].end
    case _ => false
  }

  lemma InsertRights(areas: seq<MapArea>, a: MapArea, w: nat, framed: bool, perm: Flags)
    ensures Rights(areas + [a], w, framed, perm) <==>
            Rights(areas, w, framed, perm) || (a.Has(w) && a.framed == framed && a.perm == perm)
  {
    var more := areas + [a];
    if a.Has(w) && a.framed == framed && a.perm == perm {
      assert more[|areas|].Has(w);
    }
    if Rights(areas, w, framed, perm) {
      var i :| 0 <= i < |areas| && areas[i].Has(w) && areas[i].framed == framed && areas[i].perm == perm;
      assert more[i].Has(w);
    }
  }

  lemma RemoveRights(areas: seq<MapArea>, k: nat, w: nat, framed: bool, perm: Flags)
    requires Disjoint(areas) && k < |areas|
    ensures Rights(areas[..k] + areas[k + 1..], w, framed, perm) <==>
            Rights(areas, w, framed, perm) && !areas[k].Has(w)
    ensures Disjoint(areas[..k] + areas[k + 1..])
  {
    var rest := areas[..k] + areas[k + 1..];
    assert forall j | 0 <= j < |rest| :: rest[j] == areas[if j < k then j else j + 1];
    if Rights(areas, w, framed, perm) && !areas[k].Has(w) {
      var i :| 0 <= i < |areas| && areas[i].Has(w) && areas[i].framed == framed && areas[i].perm == perm;
      assert rest[if i < k then i else i - 1].Has(w);
    }
    if Rights(rest, w, framed, perm) {
      var j :| 0 <= j < |rest| && rest[j].Has(w) && rest[j].framed == framed && rest[j].perm == perm;
      var i := if j < k then j else j + 1;
      assert areas[i].Has(w);
      assert Apart(areas[if i < k then i else k], areas[if i < k then k else i]);
    }
  }

  lemma ResizeRights(areas: seq<MapArea>, k: nat, newEnd: nat, w: nat, framed: bool, perm: Flags)
    requires Disjoint(areas) && k < |areas| && areas[k].start <= newEnd
    ensures Rights(Resize(areas, k, newEnd), w, framed, perm) <==>
            || (Rights(areas, w, framed, perm) && !(newEnd <= w < areas[k].end))
            || (areas[k].end <= w < newEnd && areas[k].framed == framed && areas[k].perm == perm)
  {
    var areas' := Resize(areas, k, newEnd);
    if Rights(areas, w, framed, perm) && !(newEnd <= w < areas[k].end) {
      var i :| 0 <= i < |areas| && areas[i].Has(w) && areas[i].framed == framed && areas[i].perm == perm;
      assert areas'[i].Has(w);
    }
    if areas[k].end <= w < newEnd && areas[k].framed == framed && areas[k].perm == perm {
      assert areas'[k].Has(w);
    }
    if Rights(areas', w, framed, perm) {
      var i :| 0 <= i < |areas| && areas'[i].Has(w) && areas'[i].framed == framed && areas'[i].perm == perm;
      if i != k {
        assert areas[i].Has(w);
        assert Apart(areas[if i < k then i else k], areas[if i < k then k else i]);
      } else if w < areas[k].end {
        assert areas[k].Has(w);
      }
    }
  }

  lemma ResizeDisjoint(areas: seq<MapArea>, trampoline: bool, k: nat, newEnd: nat)
    requires Disjoint(areas) && k < |areas| && areas[k].start <= newEnd <= VPN_COUNT
    requires forall w: nat | areas[k].end <= w < newEnd :: !Covered(areas, trampoline, w)
    ensures Disjoint(Resize(areas, k, newEnd))
  {
    var areas' := Resize(areas, k, newEnd);
    forall i, j | 0 <= i < j < |areas'| ensures Apart(areas'[i], areas'[j]) {
      assert Apart(areas[i], areas[j]);
      if i == k || j == k {
        var m := if i == k then j else i;
        forall w: nat | areas'[k].Has(w) ensures !areas[m].Has(w) {
          if w >= areas[k].end {
            assert !Covered(areas, trampoline, w);
          } else {
            assert areas[k].Has(w);
          }
        }
      }
    }
  }

  lemma InsertDisjoint(areas: seq<MapArea>, trampoline: bool, a: MapArea)
    requires Disjoint(areas) && Fits(areas, trampoline, Insert(a))
    ensures Disjoint(areas + [a])
  {
    var more := areas + [a];
    forall i, j | 0 <= i < j < |more| ensures Apart(more[i], more[j]) {
      if j < |areas| {
        assert Apart(areas[i], areas[j]);
      } else {
        forall w: nat | a.Has(w) ensures !areas[i].Has(w) {
          assert !Covered(areas, trampoline, w);
        }
      }
    }
  }

  /** Page by page: after an operation that fits, a page is in an area of some type and permissions if
      and only if it was and was not taken away, or has been given. The areas stay disjoint. */
  lemma ApplyRights(areas: seq<MapArea>, trampoline: bool, op: AreaOp, w: nat, framed: bool, perm: Flags)
    requires Disjoint(areas) && Fits(areas, trampoline, op)
    ensures Disjoint(Apply(areas, op))
    ensures Rights(Apply(areas, op), w, framed, perm) <==>
            (Rights(areas, w, framed, perm) && !Takes(areas, op, w)) || Gives(areas, op, w, framed, perm)
  {
    hide Rights, Disjoint, Covered, First, Resize;
    match op
    case Insert(a) =>
      InsertRights(areas, a, w, framed, perm);
      InsertDisjoint(areas, trampoline, a);
    case Remove(start) =>
      if First(areas, start) < |areas| {
        RemoveRights(areas, First(areas, start), w, framed, perm);
      }
    case Append(start, newEnd) => AppendRights(areas, trampoline, start, newEnd, w, framed, perm);
    case Shrink(start, newEnd) => ShrinkRights(areas, trampoline, start, newEnd, w, framed, perm);
  }

  lemma AppendRights(areas: seq<MapArea>, trampoline: bool, start: nat, newEnd: nat, w: nat, framed: bool, perm: Flags)
    requires Disjoint(areas) && Fits(areas, trampoline, Append(start, newEnd))
    ensures
      var areas' := Apply(areas, Append(start, newEnd));
      && Disjoint(areas')
      && (Rights(areas', w, framed, perm) <==>
            Rights(areas, w, framed, perm) || Gives(areas, Append(start, newEnd), w, framed, perm))
  {
    hide Rights, Covered, First;
    var k := First(areas, start);
    if k < |areas| {
      ResizeRights(areas, k, newEnd, w, framed, perm);
      ResizeDisjoint(areas, trampoline, k, newEnd);
    }
  }

  lemma ShrinkRights(areas: seq<MapArea>, trampoline: bool, start: nat, newEnd: nat, w: nat, framed: bool, perm: Flags)
    requires Disjoint(areas) && Fits(areas, trampoline, Shrink(start, newEnd))
    ensures
      var areas' := Apply(areas, Shrink(start, newEnd));
      && Disjoint(areas')
      && (Rights(areas', w, framed, perm) <==>
            Rights(areas, w, framed, perm) && !Takes(areas, Shrink(start, newEnd), w))
  {
    hide Rights, Covered, First;
    var k := First(areas, start);
    if k < |areas| {
      assert areas[k].end <= VPN_COUNT;
      ResizeRights(areas, k, newEnd, w, framed, perm);
      ResizeDisjoint(areas, trampoline, k, newEnd);
    }
  }

  lemma TightInsert(mem: map<nat, Frame>, mem': map<nat, Frame>, live: set<nat>, root: nat,
            owner: map<nat, seq<nat>>, areas: seq<MapArea>, areas': seq<MapArea>, pages: map<nat, nat>,
            trampoline: bool)
    requires Tight(mem, root, areas, trampoline) && SpaceOk(mem', live, root, owner, areas', pages)
    requires |areas'| == |areas| + 1 && areas'[..|areas|] == areas
    requires forall w: nat | areas'[|areas|].Has(w) :: Mapping(mem, root, w).None?
    requires forall w: nat | w < VPN_COUNT && !areas'[|areas|].Has(w) :: Mapping(mem', root, w) == Mapping(mem, root, w)
    ensures Tight(mem', root, areas', trampoline)
  {
    hide Mapping, SpaceOk, Tight, InAreas;
    var a := areas'[|areas|];
    AreaMapped(mem', live, root, owner, areas', pages, |areas|);
    TrampolineMapped(mem, root, areas, trampoline, a.start, a.end);
    InAreasInsert(areas, a);
    assert areas' == areas + [a];
    TightChange(mem, mem', root, areas, areas', trampoline, a.start, a.end, true);
  }

  lemma TightRemove(mem: map<nat, Frame>, mem': map<nat, Frame>, live: set<nat>, root: nat,
            owner: map<nat, seq<nat>>, areas: seq<MapArea>, pages: map<nat, nat>, k: nat, trampoline: bool)
    requires Tight(mem, root, areas, trampoline) && SpaceOk(mem, live, root, owner, areas, pages) && k < |areas|
    requires forall w: nat | w < VPN_COUNT ::
               Mapping(mem', root, w) == if areas[k].Has(w) then None else Mapping(mem, root, w)
    ensures Tight(mem', root, areas[..k] + areas[k + 1..], trampoline)
  {
    hide Mapping, SpaceOk, Tight, InAreas;
    AreaMapped(mem, live, root, owner, areas, pages, k);
    InAreasRemove(areas, k);
    TrampolineApart(mem, root, areas, trampoline, k);
    var rest, lo, hi := areas[..k] + areas[k + 1..], areas[k].start, areas[k].end;
    forall w: nat ensures InAreas(rest, w) <==> if lo <= w < hi then false else InAreas(areas, w) {
      assert areas[k].Has(w) <==> lo <= w < hi;
    }
    TightChange(mem, mem', root, areas, rest, trampoline, lo, hi, false);
  }

  lemma TrampolineApart(mem: map<nat, Frame>, root: nat, areas: seq<MapArea>, trampoline: bool, k: nat)
    requires Tight(mem, root, areas, trampoline) && k < |areas|
    ensures trampoline ==> !areas[k].Has(TRAMPOLINE_VPN)
  {
    hide Mapping;
  }

  lemma TightAppend(mem: map<nat, Frame>, mem': map<nat, Frame>, live: set<nat>, live': set<nat>, root: nat,
            owner: map<nat, seq<nat>>, owner': map<nat, seq<nat>>, areas: seq<MapArea>, areas': seq<MapArea>,
            pages: map<nat, nat>, pages': map<nat, nat>, k: nat, trampoline: bool)
    requires Tight(mem, root, areas, trampoline) && SpaceOk(mem, live, root, owner, areas, pages)
    requires SpaceOk(mem', live', root, owner', areas', pages') && k < |areas| == |areas'|
    requires areas' == areas[k := areas'[k]] && areas'[k].start == areas[k].start && areas[k].end <= areas'[k].end
    requires forall w: nat | areas[k].end <= w < areas'[k].end :: Mapping(mem, root, w).None?
    requires forall w: nat | w < VPN_COUNT && !(areas[k].end <= w < areas'[k].end) ::
               Mapping(mem', root, w) == Mapping(mem, root, w)
    ensures Tight(mem', root, areas', trampoline)
  {
    hide Mapping, SpaceOk, Tight, InAreas;
    var lo, hi := areas[k].end, areas'[k].end;
    AreaMapped(mem, live, root, owner, areas, pages, k);
    AreaMapped(mem', live', root, owner', areas', pages', k);
    TrampolineMapped(mem, root, areas, trampoline, lo, hi);
    InAreasResize(areas, areas', k);
    TightChange(mem, mem', root, areas, areas', trampoline, lo, hi, true);
  }

  lemma TightShrink(mem: map<nat, Frame>, mem': map<nat, Frame>, live: set<nat>, root: nat,
            owner: map<nat, seq<nat>>, areas: seq<MapArea>, areas': seq<MapArea>, pages: map<nat, nat>, k: nat,
            trampoline: bool)
    requires Tight(mem, root, areas, trampoline) && SpaceOk(mem, live, root, owner, areas, pages)
    requires k < |areas| == |areas'| && areas' == areas[k := areas'[k]] && areas'[k].start == areas[k].start
    requires areas[k].start <= areas'[k].end <= areas[k].end
    requires forall w: nat | w < VPN_COUNT ::
               Mapping(mem', root, w) == if areas'[k].end <= w < areas[k].end then None else Mapping(mem, root, w)
    ensures Tight(mem', root, areas', trampoline)
  {
    hide Mapping, SpaceOk, Tight, InAreas;
    AreaMapped(mem, live, root, owner, areas, pages, k);
    InAreasResize(areas, areas', k);
    TrampolineApart(mem, root, areas, trampoline, k);
    TightChange(mem, mem', root, areas, areas', trampoline, areas'[k].end, areas[k].end, false);
  }

  /** A copy of Framed areas has exactly them and the trampoline mapped. */
  lemma CopyIsTight(parent: MemorySet, child: MemorySet, pm: PhysicalMemory)
    requires child.Valid(pm) && |child.areas| == |parent.areas|
    requires forall i | 0 <= i < |parent.areas| ::
               CopyOf(pm.mem, parent.areas[i], child.areas[i]) && !parent.areas[i].Has(TRAMPOLINE_VPN)
    requires OnlyCopied(pm.mem, child.pt.root, parent.areas) && Mapping(pm.mem, child.pt.root, TRAMPOLINE_VPN).Some?
    ensures Shapes(child.areas) == Shapes(parent.areas) && Tight(pm.mem, child.pt.root, child.areas, true)
  {
    hide Mapping, SpaceOk, PageTable.Valid;
    forall i | 0 <= i < |child.areas|
      ensures forall w: nat | child.areas[i].Has(w) :: Mapping(pm.mem, child.pt.root, w).Some?
    {
      AreaMapped(pm.mem, pm.Live(), child.pt.root, child.pt.owner, child.areas, child.pages, i);
    }
    forall w: nat | w < TRAMPOLINE_VPN && !InAreas(child.areas, w)
      ensures Mapping(pm.mem, child.pt.root, w).None?
    {
      assert forall i | 0 <= i < |parent.areas| :: parent.areas[i].Has(w) <==> child.areas[i].Has(w);
    }
  }

  /** A space with exactly its areas (and trampoline) mapped has exactly its new areas mapped. */
  ghost predicate KeepsTight(mem: map<nat, Frame>, mem': map<nat, Frame>, root: nat, areas: seq<MapArea>,
            areas': seq<MapArea>)
  {
    forall trampoline: bool :: Tight(mem, root, areas, trampoline) ==> Tight(mem', root, areas', trampoline)
  }

  lemma InsertShapes(areas: seq<MapArea>, areas': seq<MapArea>, a: MapArea)
    requires |areas'| == |areas| + 1 && areas'[..|areas|] == areas && Shape(areas'[|areas|]) == a
    ensures Shapes(areas') == Apply(Shapes(areas), Insert(a))
  {
    assert forall i | 0 <= i < |areas| :: areas'[i] == areas'[..|areas|][i];
  }

  lemma RemoveShapes(areas: seq<MapArea>, start: nat)
    ensures Shapes(Apply(areas, Remove(start))) == Apply(Shapes(areas), Remove(start))
  {
    FirstOfShapes(areas, start);
  }

  lemma ResizeShapes(areas: seq<MapArea>, areas': seq<MapArea>, k: nat, newEnd: nat)
    requires k < |areas| == |areas'| && areas' == areas[k := areas'[k]]
    requires Shape(areas'[k]) == Shape(areas[k]).(end := newEnd)
    ensures Shapes(areas') == Resize(Shapes(areas), k, newEnd)
  {
  }

  method AlterInsert(s: MemorySet, pm: PhysicalMemory, a: MapArea) returns (ok: bool)
    requires s.Valid(pm) && Applicable(pm, s, Insert(a))
    modifies s, s.pt, pm
    ensures old(pm.Free()) >= AreaCost(old(s.areas), Insert(a)) ==> ok
    ensures ok ==>
              && s.Valid(pm) && Shapes(s.areas) == Apply(Shapes(old(s.areas)), Insert(a))
              && pm.Free() + AreaCost(old(s.areas), Insert(a)) >= old(pm.Free())
              && KeepsTight(old(pm.mem), pm.mem, s.pt.root, old(s.areas), s.areas)
              && Confined(old(pm.mem), old(pm.Live()), old(s.Owned()), pm.mem, pm.Live(), s.Owned())
  {
    hide Mapping, PhysicalMemory.Valid, PhysicalMemory.Live, PhysicalMemory.Free, PageTable.Valid, SpaceOk, Tight,
        Confined;
    ghost var m0, areas0 := pm.mem, s.areas;
    ok := s.Push(pm, a);
    if ok {
      InsertShapes(areas0, s.areas, a);
      forall trampoline: bool | Tight(m0, s.pt.root, areas0, trampoline)
        ensures Tight(pm.mem, s.pt.root, s.areas, trampoline)
      {
        TightInsert(m0, pm.mem, pm.Live(), s.pt.root, s.pt.owner, areas0, s.areas, s.pages, trampoline);
      }
    }
  }

  method AlterRemove(s: MemorySet, pm: PhysicalMemory, start: nat)
    requires s.Valid(pm) && Applicable(pm, s, Remove(start))
    modifies s, pm
    ensures s.Valid(pm) && Shapes(s.areas) == Apply(Shapes(old(s.areas)), Remove(start)) && pm.Free() >= old(pm.Free())
    ensures KeepsTight(old(pm.mem), pm.mem, s.pt.root, old(s.areas), s.areas)
    ensures Confined(old(pm.mem), old(pm.Live()), old(s.Owned()), pm.mem, pm.Live(), s.Owned())
  {
    hide Mapping, PhysicalMemory.Valid, PhysicalMemory.Live, PhysicalMemory.Free, PageTable.Valid, SpaceOk, Tight,
        Confined;
    ghost var m0, areas0 := pm.mem, s.areas;
    ghost var l0, o0, p0 := pm.Live(), s.pt.owner, s.pages;
    var k := s.RemoveArea(pm, start);
    RemoveShapes(areas0, start);
    if k < |areas0| {
      forall trampoline: bool | Tight(m0, s.pt.root, areas0, trampoline)
        ensures Tight(pm.mem, s.pt.root, s.areas, trampoline)
      {
        TightRemove(m0, pm.mem, l0, s.pt.root, o0, areas0, p0, k, trampoline);
      }
    }
  }

  method AlterAppend(s: MemorySet, pm: PhysicalMemory, start: nat, newEnd: nat) returns (ok: bool)
    requires s.Valid(pm) && Applicable(pm, s, Append(start, newEnd))
    modifies s, s.pt, pm
    ensures old(pm.Free()) >= AreaCost(old(s.areas), Append(start, newEnd)) ==> ok
    ensures ok ==>
              && s.Valid(pm) && Shapes(s.areas) == Apply(Shapes(old(s.areas)), Append(start, newEnd))
              && pm.Free() + AreaCost(old(s.areas), Append(start, newEnd)) >= old(pm.Free())
              && KeepsTight(old(pm.mem), pm.mem, s.pt.root, old(s.areas), s.areas)
              && Confined(old(pm.mem), old(pm.Live()), old(s.Owned()), pm.mem, pm.Live(), s.Owned())
  {
    hide Mapping, PhysicalMemory.Valid, PhysicalMemory.Live, PhysicalMemory.Free, PageTable.Valid, SpaceOk, Tight,
        Confined;
    ghost var m0, areas0 := pm.mem, s.areas;
    ghost var l0, o0, p0 := pm.Live(), s.pt.owner, s.pages;
    var found, k;
    found, ok, k := s.AppendTo(pm, start, newEnd);
    if ok {
      FirstOfShapes(areas0, start);
      if found {
        ResizeShapes(areas0, s.areas, k, newEnd);
        forall trampoline: bool | Tight(m0, s.pt.root, areas0, trampoline)
          ensures Tight(pm.mem, s.pt.root, s.areas, trampoline)
        {
          TightAppend(m0, pm.mem, l0, pm.Live(), s.pt.root, o0, s.pt.owner, areas0, s.areas, p0, s.pages, k,
            trampoline);
        }
      }
    }
  }

  method AlterShrink(s: MemorySet, pm: PhysicalMemory, start: nat, newEnd: nat)
    requires s.Valid(pm) && Applicable(pm, s, Shrink(start, newEnd))
    modifies s, pm
    ensures s.Valid(pm) && Shapes(s.areas) == Apply(Shapes(old(s.areas)), Shrink(start, newEnd))
    ensures pm.Free() >= old(pm.Free())
    ensures KeepsTight(old(pm.mem), pm.mem, s.pt.root, old(s.areas), s.areas)
    ensures Confined(old(pm.mem), old(pm.Live()), old(s.Owned()), pm.mem, pm.Live(), s.Owned())
  {
    hide Mapping, PhysicalMemory.Valid, PhysicalMemory.Live, PhysicalMemory.Free, PageTable.Valid, SpaceOk, Tight,
        Confined;
    ghost var m0, areas0 := pm.mem, s.areas;
    ghost var l0, o0, p0 := pm.Live(), s.pt.owner, s.pages;
    var found, k := s.ShrinkTo(pm, start, newEnd);
    FirstOfShapes(areas0, start);
    if found {
      ResizeShapes(areas0, s.areas, k, newEnd);
      forall trampoline: bool | Tight(m0, s.pt.root, areas0, trampoline)
        ensures Tight(pm.mem, s.pt.root, s.areas, trampoline)
      {
        TightShrink(m0, pm.mem, l0, s.pt.root, o0, areas0, s.areas, p0, k, trampoline);
      }
    }
  }

  /** An operation on the areas of one space, with what it means on the list of areas. */
  method Alter(s: MemorySet, pm: PhysicalMemory, op: AreaOp) returns (ok: bool)
    requires s.Valid(pm) && Applicable(pm, s, op)
    modifies s, s.pt, pm
    ensures old(pm.Free()) >= AreaCost(old(s.areas), op) ==> ok
    ensures ok ==>
              && s.Valid(pm) && Shapes(s.areas) == Apply(Shapes(old(s.areas)), op)
              && pm.Free() + AreaCost(old(s.areas), op) >= old(pm.Free())
              && KeepsTight(old(pm.mem), pm.mem, s.pt.root, old(s.areas), s.areas)
              && Confined(old(pm.mem), old(pm.Live()), old(s.Owned()), pm.mem, pm.Live(), s.Owned())
  {
    hide Mapping, PhysicalMemory.Valid, PhysicalMemory.Live, PhysicalMemory.Free, MemorySet.Valid, MemorySet.Owned,
        KeepsTight, Confined, Applicable, Shapes;
    match op
    case Insert(a) => ok := AlterInsert(s, pm, a);
    case Remove(start) => AlterRemove(s, pm, start); ok := true;
    case Append(start, newEnd) => ok := AlterAppend(s, pm, start, newEnd);
    case Shrink(start, newEnd) => AlterShrink(s, pm, start, newEnd); ok := true;
  }

  /** These spaces translate every page as before. */
  ghost predicate KeptMappings(spaces: set<MemorySet>, mem: map<nat, Frame>, mem': map<nat, Frame>) {
    forall t | t in spaces :: SameMappings(mem, mem', t.pt.root)
  }

  /** All address spaces with the one frame allocator. */
  class Kernel {
    const pm: PhysicalMemory
    var spaces: set<MemorySet>

    /** Every live frame is held by exactly one address space. */
    ghost predicate Valid()
      reads this, pm, spaces, set s: MemorySet | s in spaces :: s.pt
    {
      && pm.Valid()
      && (forall s | s in spaces :: s.Valid(pm))
      && (forall s, t | s in spaces && t in spaces && s != t :: s.pt != t.pt && s.Owned() !! t.Owned())
      && (forall f | f in pm.Live() :: exists s :: s in spaces && f in s.Owned())
    }

    constructor (pm: PhysicalMemory)
      requires pm.Valid() && pm.Live() == {}
      ensures Valid() && this.pm == pm && spaces == {}
    {
      this.pm, spaces := pm, {};
    }

    /** Re-establishing the invariant after a step confined to what `own` held and `own'` holds. */
    lemma Untouched(t: MemorySet, mem: map<nat, Frame>, live: set<nat>, own: set<nat>, own': set<nat>)
      requires pm.Valid() && SpaceIn(t, mem, live) && t.Owned() !! own
      requires Confined(mem, live, own, pm.mem, pm.Live(), own')
      ensures t.Valid(pm) && t.Owned() !! own' && SameMappings(mem, pm.mem, t.pt.root)
    {
      hide Mapping, SpaceOk, PhysicalMemory.Valid, PhysicalMemory.Live, TreeOk, Distinct, Members;
      LiveInMem(pm);
      SpaceFacts(mem, live, t.pt.root, t.pt.owner, t.areas, t.pages);
      Bystander(mem, live, own, pm.mem, pm.Live(), own', t.pt.root, t.pt.owner, t.areas, t.pages);
      SpaceTree(pm.mem, pm.Live(), t.pt.root, t.pt.owner, t.areas, t.pages);
      SpaceFacts(pm.mem, pm.Live(), t.pt.root, t.pt.owner, t.areas, t.pages);
    }

    /** `MemorySet::new_bare` */
    method NewSpace() returns (s: MemorySet?)
      requires Valid()
      modifies this, pm
      ensures s == null <==> old(pm.Free()) == 0
      ensures s != null ==> Valid() && fresh(s) && fresh(s.pt) && spaces == old(spaces) + {s} && s.areas == []
      ensures s != null ==> pm.Free() == old(pm.Free()) - 1 && Tight(pm.mem, s.pt.root, [], false)
      ensures s != null ==> KeptMappings(old(spaces), old(pm.mem), pm.mem)
    {
      hide Mapping, SameMappings, SpaceIn, PhysicalMemory.Valid, PhysicalMemory.Live, MemorySet.Valid,
          MemorySet.Owned, Confined;
      if |pm.recycled| == 0 && pm.current >= pm.end {
        return null;
      }
      ghost var mem, live := pm.mem, pm.Live();
      TableFacts();
      s := new MemorySet(pm);
      PmValid(s);
      forall t | t in spaces
        ensures t.Valid(pm) && t.Owned() !! s.Owned() && SameMappings(mem, pm.mem, t.pt.root)
      {
        Untouched(t, mem, live, {}, s.Owned());
      }
      ConfinedLive(mem, live, {}, pm.mem, pm.Live(), s.Owned());
      spaces := spaces + {s};
      forall f | f in pm.Live() ensures exists t :: t in spaces && f in t.Owned() {
        if f in s.Owned() {
          assert s in spaces;
        } else {
          var t :| t in old(spaces) && f in old(t.Owned());
          assert t in spaces && f in t.Owned();
        }
      }
    }

    /** `from_existed_user` as a step. */
    method ForkSpace(parent: MemorySet, trampoline: nat) returns (child: MemorySet?)
      requires Valid() && parent in spaces && trampoline < PPN_COUNT
      requires forall i | 0 <= i < |parent.areas| :: parent.areas[i].framed && !parent.areas[i].Has(TRAMPOLINE_VPN)
      modifies this, pm
      ensures old(pm.Free()) >= FramesEnough(parent.areas) ==> child != null
      ensures child != null ==> Valid() && fresh(child) && fresh(child.pt) && spaces == old(spaces) + {child}
      ensures child != null ==>
          |child.areas| == |parent.areas| && forall i | 0 <= i < |parent.areas| ::
          CopyOf(pm.mem, parent.areas[i], child.areas[i])
      ensures child != null ==>
          Shapes(child.areas) == Shapes(parent.areas) && Tight(pm.mem, child.pt.root, child.areas, true)
      ensures child != null ==> pm.Free() + FramesEnough(parent.areas) >= old(pm.Free())
      ensures child != null ==> KeptMappings(old(spaces), old(pm.mem), pm.mem)
    {
      hide Mapping, SameMappings, Tight, SpaceIn, PhysicalMemory.Valid, PhysicalMemory.Live, MemorySet.Valid,
          MemorySet.Owned, Confined, CopyOf, OnlyCopied;
      ghost var mem, live := pm.mem, pm.Live();
      TableFacts();
      child := Fork(parent, pm, trampoline);
      if child == null {
        return;
      }
      PmValid(child);
      CopyIsTight(parent, child, pm);
      forall t | t in spaces
        ensures t.Valid(pm) && t.Owned() !! child.Owned() && SameMappings(mem, pm.mem, t.pt.root)
      {
        Untouched(t, mem, live, {}, child.Owned());
      }
      ConfinedLive(mem, live, {}, pm.mem, pm.Live(), child.Owned());
      spaces := spaces + {child};
      forall f | f in pm.Live() ensures exists t :: t in spaces && f in t.Owned() {
        if f in child.Owned() {
          assert child in spaces;
        } else {
          var t :| t in old(spaces) && f in old(t.Owned());
          assert t in spaces && f in t.Owned();
        }
      }
    }

    /** An operation on the areas of one address space. */
    method Change(s: MemorySet, op: AreaOp) returns (ok: bool)
      requires Valid() && s in spaces && Applicable(pm, s, op)
      modifies pm, s, s.pt
      ensures ok ==> Valid() && spaces == old(spaces)
      ensures ok ==> Shapes(s.areas) == Apply(Shapes(old(s.areas)), op)
      ensures ok ==> KeepsTight(old(pm.mem), pm.mem, s.pt.root, old(s.areas), s.areas)
      ensures ok ==> KeptMappings(spaces - {s}, old(pm.mem), pm.mem)
      ensures ok ==> pm.Free() + AreaCost(old(s.areas), op) >= old(pm.Free())
      ensures old(pm.Free()) >= AreaCost(old(s.areas), op) ==> ok
    {
      hide Mapping, SameMappings, SpaceIn, PhysicalMemory.Valid, PhysicalMemory.Live, PhysicalMemory.Free,
          MemorySet.Valid, MemorySet.Owned, Confined, Applicable, KeepsTight, Shapes, Apply, AreaCost;
      ghost var mem, live, own := pm.mem, pm.Live(), s.Owned();
      TableFacts();
      ok := Alter(s, pm, op);
      if ok {
        PmValid(s);
        forall t | t in spaces && t != s
          ensures t.Valid(pm) && t.Owned() !! s.Owned() && SameMappings(mem, pm.mem, t.pt.root)
        {
          Untouched(t, mem, live, own, s.Owned());
        }
        ConfinedLive(mem, live, own, pm.mem, pm.Live(), s.Owned());
      }
    }

    lemma TableFacts()
      requires Valid()
      ensures forall t | t in spaces :: SpaceIn(t, pm.mem, pm.Live())
    {
      hide Mapping, SpaceOk, PhysicalMemory.Valid, PhysicalMemory.Live, TreeOk, Distinct, Members;
      forall t | t in spaces ensures SpaceIn(t, pm.mem, pm.Live()) {
        assert t.Valid(pm);
      }
    }

    lemma PmValid(s: MemorySet)
      requires s.Valid(pm)
      ensures pm.Valid()
    {
    }

    /** Dropping an address space. */
    method Discard(s: MemorySet)
      requires Valid() && s in spaces
      modifies this, pm
      ensures Valid() && spaces == old(spaces) - {s} && pm.Live() == old(pm.Live()) - old(s.Owned())
      ensures pm.mem == old(pm.mem) && pm.Free() >= old(pm.Free())
    {
      hide Mapping, SameMappings, PhysicalMemory.Free, SpaceIn, PhysicalMemory.Valid, PhysicalMemory.Live,
          MemorySet.Valid, MemorySet.Owned, Confined;
      ghost var mem, live := pm.mem, pm.Live();
      TableFacts();
      DropSpace(s, pm);
      spaces := spaces - {s};
      DropConfined(mem, live, s.Owned());
      forall t | t in spaces ensures t.Valid(pm) {
        Untouched(t, mem, live, s.Owned(), {});
      }
      forall f | f in pm.Live() ensures exists t :: t in spaces && f in t.Owned() {
        var t :| t in old(spaces) && f in old(t.Owned());
        assert t in spaces && f in t.Owned();
      }
    }

    /** Frame `f` is recycled, or is a table of exactly one address space, or backs exactly one page of
        exactly one address space, and only one of these. */
    ghost predicate Accounted(f: nat)
      reads this, pm, spaces, set s: MemorySet | s in spaces :: s.pt
    {
      && (f in pm.recycled <==> !exists s :: s in spaces && (f in s.pt.frames || f in s.pages))
      && (forall s, t | s in spaces && t in spaces && f in s.Owned() && f in t.Owned() :: s == t)
      && (forall s | s in spaces :: !(f in s.pt.frames && f in s.pages))
      && (forall s, v: nat | s in spaces :: (f in s.pages && s.pages[f] == v) <==> Backs(s.areas, v, f))
    }

    /** Conservation: every frame handed out so far is accounted for. */
    lemma Conservation(f: nat)
      requires Valid() && pm.base <= f < pm.current
      ensures Accounted(f)
    {
      hide Mapping, TreeOk, AreasOk;
      assert f in pm.Live() <==> f !in pm.recycled;
      forall s | s in spaces ensures f in s.pt.frames <==> f in s.pt.owner {
        assert s.Valid(pm);
        assert f in s.pt.frames <==> f in Members(s.pt.frames);
      }
      forall s | s in spaces && f in s.Owned() ensures f in pm.Live() {
        assert s.Valid(pm);
      }
    }
  }

  lemma DropConfined(mem: map<nat, Frame>, live: set<nat>, own: set<nat>)
    ensures Confined(mem, live, own, mem, live - own, {})
  {
  }

  lemma ConfinedLive(mem: map<nat, Frame>, live: set<nat>, own: set<nat>, mem': map<nat, Frame>, live': set<nat>,
            own': set<nat>)
    requires Confined(mem, live, own, mem', live', own')
    ensures forall f | f in live' :: f in own' || (f in live && f !in own)
  {
  }
}
