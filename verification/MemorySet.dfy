/** Address spaces: mapped areas over a page table (os/src/mm/memory_set.rs). */
module MemorySets {
  import opened Basics
  import opened Address
  import opened PageTables

  /** `MapArea`: a page range, the frames behind it when it is Framed, and the permission bits. */
  datatype MapArea = MapArea(start: nat, end: nat, frames: map<nat, nat>, framed: bool, perm: Flags) {
    predicate Has(vpn: int) { start <= vpn < end }
  }

  /** The entry that a page of an area must have. */
  ghost function EntryOf(a: MapArea, vpn: nat): nat {
    Pte(if a.framed then if vpn in a.frames then a.frames[vpn] else 0 else vpn, WithV(a.perm))
  }

  /** Area and page table agree: a Framed area has exactly one frame per page of its range, an
      Identical one none, and every page is mapped accordingly. */
  ghost predicate AreaOk(mem: map<nat, Frame>, root: nat, a: MapArea) {
    && a.start <= a.end <= VPN_COUNT
    && (forall vpn | vpn in a.frames :: a.framed && a.Has(vpn))
    && (forall vpn: nat | a.Has(vpn) ::
      (a.framed ==> vpn in a.frames) && Mapping(mem, root, vpn) == Some(EntryOf(a, vpn)))
  }

  ghost predicate Apart(a: MapArea, b: MapArea) {
    forall vpn: nat :: !(a.Has(vpn) && b.Has(vpn))
  }

  ghost predicate AreasOk(mem: map<nat, Frame>, root: nat, areas: seq<MapArea>) {
    && (forall i | 0 <= i < |areas| :: AreaOk(mem, root, areas[i]))
    && (forall i, j | 0 <= i < |areas| && 0 <= j < |areas| && i != j :: Apart(areas[i], areas[j]))
  }

  /** Frame `f` backs page `vpn` of some area. */
  ghost predicate Backs(areas: seq<MapArea>, vpn: nat, f: nat) {
    exists i | 0 <= i < |areas| :: vpn in areas[i].frames && areas[i].frames[vpn] == f
  }

  /** `pages` maps every data frame to the one page it backs. */
  ghost predicate PagesOk(areas: seq<MapArea>, pages: map<nat, nat>) {
    forall vpn, f :: Backs(areas, vpn, f) <==> f in pages && pages[f] == vpn
  }

  /** An address space in memory: tables and data frames are live, apart from each other, and agree. */
  ghost predicate SpaceOk(mem: map<nat, Frame>, live: set<nat>, root: nat, owner: map<nat, seq<nat>>,
                          areas: seq<MapArea>, pages: map<nat, nat>) {
    && TreeOk(mem, root, owner) && AreasOk(mem, root, areas) && PagesOk(areas, pages)
    && owner.Keys <= live && pages.Keys <= live && pages.Keys !! owner.Keys && live <= mem.Keys
  }

  /** What an operation on one address space may do to memory: frames held by anyone else are
      neither written nor taken nor given back. */
  ghost predicate Confined(mem: map<nat, Frame>, live: set<nat>, own: set<nat>,
                           mem': map<nat, Frame>, live': set<nat>, own': set<nat>) {
    && live' == (live - own) + own' && own' !! live - own
    && mem'.Keys == mem.Keys && forall f | f in live - own && f in mem :: mem'[f] == mem[f]
  }

  lemma ConfinedTrans(m1: map<nat, Frame>, l1: set<nat>, o1: set<nat>, m2: map<nat, Frame>, l2: set<nat>, o2: set<nat>,
                      m3: map<nat, Frame>, l3: set<nat>, o3: set<nat>)
    requires Confined(m1, l1, o1, m2, l2, o2) && Confined(m2, l2, o2, m3, l3, o3)
    ensures Confined(m1, l1, o1, m3, l3, o3)
  {
    assert l2 - o2 == l1 - o1;
  }

  lemma ConfinedRefl(mem: map<nat, Frame>, live: set<nat>, own: set<nat>)
    requires own <= live
    ensures Confined(mem, live, own, mem, live, own)
  {
    assert (live - own) + own == live;
  }

  /** An address space that shares no frame with the one operated on is untouched. */
  lemma Bystander(mem: map<nat, Frame>, live: set<nat>, own: set<nat>, mem': map<nat, Frame>, live': set<nat>,
            own': set<nat>,
                  root: nat, owner: map<nat, seq<nat>>, areas: seq<MapArea>, pages: map<nat, nat>)
    requires SpaceOk(mem, live, root, owner, areas, pages) && Confined(mem, live, own, mem', live', own')
    requires (owner.Keys + pages.Keys) !! own && live' <= mem'.Keys
    ensures SpaceOk(mem', live', root, owner, areas, pages)
    ensures forall w: nat :: Mapping(mem', root, w) == Mapping(mem, root, w)
    ensures forall f | f in pages :: mem'[f] == mem[f]
  {
    hide Mapping, EntryOf, TreeOk;
    TablesLive(mem, root, owner);
    MappingFrame(mem, mem', root, owner);
    forall i | 0 <= i < |areas| ensures AreaOk(mem', root, areas[i]) {
      assert AreaOk(mem, root, areas[i]);
    }
  }

  lemma TablesLive(mem: map<nat, Frame>, root: nat, owner: map<nat, seq<nat>>)
    requires TreeOk(mem, root, owner)
    ensures forall f | f in owner :: f in mem
  {
  }

  // Steps: the page loops of the source take one page at a time in or out of an area.

  /** Handing out a frame disturbs nobody. */
  lemma AllocKeeps(mem: map<nat, Frame>, live: set<nat>, root: nat, owner: map<nat, seq<nat>>, areas: seq<MapArea>,
                   pages: map<nat, nat>, f: nat)
    requires SpaceOk(mem, live, root, owner, areas, pages) && f !in live && f in mem
    ensures SpaceOk(mem[f := ZeroFrame()], live + {f}, root, owner, areas, pages)
    ensures forall w: nat :: Mapping(mem[f := ZeroFrame()], root, w) == Mapping(mem, root, w)
  {
    hide Mapping, EntryOf, TreeOk;
    MappingFrame(mem, mem[f := ZeroFrame()], root, owner);
    forall i | 0 <= i < |areas| ensures AreaOk(mem[f := ZeroFrame()], root, areas[i]) {
      assert AreaOk(mem, root, areas[i]);
    }
  }

  /** The area after one more page at its end. */
  ghost function Grown(a: MapArea, f: nat): MapArea {
    a.(end := a.end + 1, frames := if a.framed then a.frames[a.end := f] else a.frames)
  }

  ghost predicate MappedOnly(mem: map<nat, Frame>, mem': map<nat, Frame>, root: nat, vpn: nat, r: Option<nat>) {
    forall w: nat | w < VPN_COUNT :: Mapping(mem', root, w) == if w == vpn then r else Mapping(mem, root, w)
  }

  lemma GrowAreas(mem: map<nat, Frame>, mem': map<nat, Frame>, root: nat, areas: seq<MapArea>, i: nat, f: nat)
    requires AreasOk(mem, root, areas) && i < |areas| && areas[i].end < VPN_COUNT
    requires Mapping(mem, root, areas[i].end).None?
    requires MappedOnly(mem, mem', root, areas[i].end, Some(EntryOf(Grown(areas[i], f), areas[i].end)))
    ensures AreasOk(mem', root, areas[i := Grown(areas[i], f)])
  {
    hide Mapping, Pte, WithV;
    var a, a' := areas[i], Grown(areas[i], f);
    var areas' := areas[i := a'];
    assert AreaOk(mem, root, a);
    forall k | 0 <= k < |areas'| ensures AreaOk(mem', root, areas'[k]) {
      assert AreaOk(mem, root, areas[k]);
      if k == i {
        forall vpn: nat | a'.Has(vpn) ensures Mapping(mem', root, vpn) == Some(EntryOf(a', vpn)) {
          if vpn != a.end {
            assert a.Has(vpn);
          }
        }
      } else {
        forall vpn: nat | areas[k].Has(vpn) ensures Mapping(mem', root, vpn) == Some(EntryOf(areas[k], vpn)) {
          assert Mapping(mem, root, vpn).Some?;
        }
      }
    }
    forall k | 0 <= k < |areas| && k != i ensures Apart(areas[k], a') && Apart(a', areas[k]) {
      assert AreaOk(mem, root, areas[k]) && Apart(areas[k], a);
      forall vpn: nat ensures !(areas[k].Has(vpn) && a'.Has(vpn)) {
        if areas[k].Has(vpn) {
          assert Mapping(mem, root, vpn).Some?;
        }
      }
    }
  }

  lemma GrowPages(areas: seq<MapArea>, pages: map<nat, nat>, i: nat, f: nat)
    requires PagesOk(areas, pages) && i < |areas| && areas[i].framed && areas[i].end !in areas[i].frames && f !in pages
    ensures PagesOk(areas[i := Grown(areas[i], f)], pages[f := areas[i].end])
  {
    var areas', pages', a := areas[i := Grown(areas[i], f)], pages[f := areas[i].end], areas[i];
    forall vpn, g ensures Backs(areas', vpn, g) <==> g in pages' && pages'[g] == vpn {
      if Backs(areas, vpn, g) {
        var k :| 0 <= k < |areas| && vpn in areas[k].frames && areas[k].frames[vpn] == g;
        assert vpn in areas'[k].frames && areas'[k].frames[vpn] == g;
      }
      if Backs(areas', vpn, g) {
        var k :| 0 <= k < |areas'| && vpn in areas'[k].frames && areas'[k].frames[vpn] == g;
        if !(k == i && vpn == a.end) {
          assert vpn in areas[k].frames && areas[k].frames[vpn] == g;
          assert Backs(areas, vpn, g);
        }
      }
      if g == f && vpn == a.end {
        assert areas'[i].frames[vpn] == g;
      }
    }
  }

  /** The area after its first page was taken out. */
  ghost function Cut(a: MapArea): MapArea {
    a.(start := a.start + 1, frames := a.frames - {a.start})
  }

  lemma CutAreas(mem: map<nat, Frame>, mem': map<nat, Frame>, root: nat, areas: seq<MapArea>, i: nat)
    requires AreasOk(mem, root, areas) && i < |areas| && areas[i].start < areas[i].end
    requires MappedOnly(mem, mem', root, areas[i].start, None)
    ensures AreasOk(mem', root, areas[i := Cut(areas[i])])
  {
    hide Mapping, Pte, WithV;
    var a, a' := areas[i], Cut(areas[i]);
    var areas' := areas[i := a'];
    assert AreaOk(mem, root, a);
    forall k | 0 <= k < |areas'| ensures AreaOk(mem', root, areas'[k]) {
      assert AreaOk(mem, root, areas[k]);
      if k != i {
        assert Apart(areas[k], a) && a.Has(a.start);
      }
    }
    forall k | 0 <= k < |areas| && k != i ensures Apart(areas[k], a') && Apart(a', areas[k]) {
      assert Apart(areas[k], a);
    }
  }

  lemma CutPages(areas: seq<MapArea>, pages: map<nat, nat>, i: nat, mem: map<nat, Frame>, root: nat)
    requires PagesOk(areas, pages) && AreasOk(mem, root, areas) && i < |areas| && areas[i].start < areas[i].end &&
        areas[i].framed
    ensures areas[i].start in areas[i].frames && areas[i].frames[areas[i].start] in pages
    ensures PagesOk(areas[i := Cut(areas[i])], pages - {areas[i].frames[areas[i].start]})
  {
    hide Mapping, EntryOf;
    var a := areas[i];
    assert AreaOk(mem, root, a) && a.Has(a.start);
    var f := a.frames[a.start];
    var areas', pages' := areas[i := Cut(a)], pages - {f};
    assert Backs(areas, a.start, f);
    forall vpn: nat, g: nat ensures Backs(areas', vpn, g) <==> g in pages' && pages'[g] == vpn {
      if Backs(areas, vpn, g) && g != f {
        var k :| 0 <= k < |areas| && vpn in areas[k].frames && areas[k].frames[vpn] == g;
        assert vpn in areas'[k].frames && areas'[k].frames[vpn] == g;
      }
      if Backs(areas', vpn, g) {
        var k :| 0 <= k < |areas'| && vpn in areas'[k].frames && areas'[k].frames[vpn] == g;
        assert vpn in areas[k].frames && areas[k].frames[vpn] == g;
        assert Backs(areas, vpn, g);
        if k != i {
          assert AreaOk(mem, root, areas[k]) && areas[k].Has(vpn) && Apart(areas[k], a);
        }
      }
    }
  }

  // Splitting, adding and dropping areas without touching memory.

  /** The part of an area from page `lo` to page `hi`. */
  function Part(a: MapArea, lo: nat, hi: nat): MapArea {
    MapArea(lo, hi, map v | v in a.frames && lo <= v < hi :: a.frames[v], a.framed, a.perm)
  }

  lemma SplitArea(mem: map<nat, Frame>, live: set<nat>, root: nat, owner: map<nat, seq<nat>>, areas: seq<MapArea>,
                  pages: map<nat, nat>, i: nat, mid: nat)
    requires SpaceOk(mem, live, root, owner, areas, pages) && i < |areas| && areas[i].start <= mid <= areas[i].end
    ensures SpaceOk(mem, live, root, owner,
        areas[i := Part(areas[i], areas[i].start, mid)] + [Part(areas[i], mid, areas[i].end)], pages)
  {
    hide Mapping, TreeOk, Pte, WithV;
    var a, n := areas[i], |areas|;
    var left, right := Part(a, a.start, mid), Part(a, mid, a.end);
    var areas' := areas[i := left] + [right];
    assert AreaOk(mem, root, a);
    forall k | 0 <= k < |areas'| ensures AreaOk(mem, root, areas'[k]) {
      if k != i && k < n {
        assert areas'[k] == areas[k] && AreaOk(mem, root, areas[k]);
      } else {
        forall vpn: nat | areas'[k].Has(vpn) ensures Mapping(mem, root, vpn) == Some(EntryOf(areas'[k], vpn)) {
          assert a.Has(vpn);
        }
      }
    }
    forall j, k | 0 <= j < |areas'| && 0 <= k < |areas'| && j != k ensures Apart(areas'[j], areas'[k]) {
      var j0, k0 := if j == n then i else j, if k == n then i else k;
      if j0 != k0 {
        assert Apart(areas[j0], areas[k0]);
        assert forall vpn: nat :: areas'[j].Has(vpn) ==> areas[j0].Has(vpn);
        assert forall vpn: nat :: areas'[k].Has(vpn) ==> areas[k0].Has(vpn);
      }
    }
    SplitBacks(areas, i, mid, mem, root);
  }

  lemma SplitBacks(areas: seq<MapArea>, i: nat, mid: nat, mem: map<nat, Frame>, root: nat)
    requires AreasOk(mem, root, areas) && i < |areas| && areas[i].start <= mid <= areas[i].end
    ensures var areas' := areas[i := Part(areas[i], areas[i].start, mid)] + [Part(areas[i], mid, areas[i].end)];
            forall vpn: nat, f: nat :: Backs(areas', vpn, f) <==> Backs(areas, vpn, f)
  {
    hide Mapping, EntryOf;
    var a, n := areas[i], |areas|;
    var areas' := areas[i := Part(a, a.start, mid)] + [Part(a, mid, a.end)];
    assert AreaOk(mem, root, a);
    forall vpn: nat, f: nat ensures Backs(areas', vpn, f) <==> Backs(areas, vpn, f) {
      if Backs(areas, vpn, f) {
        var k :| 0 <= k < n && vpn in areas[k].frames && areas[k].frames[vpn] == f;
        var k' := if k == i && vpn >= mid then n else k;
        assert a.framed && k == i ==> a.Has(vpn);
        assert vpn in areas'[k'].frames && areas'[k'].frames[vpn] == f;
      }
      if Backs(areas', vpn, f) {
        var k :| 0 <= k < |areas'| && vpn in areas'[k].frames && areas'[k].frames[vpn] == f;
        var k' := if k == n then i else k;
        assert vpn in areas[k'].frames && areas[k'].frames[vpn] == f;
      }
    }
  }

  lemma AddEmpty(mem: map<nat, Frame>, live: set<nat>, root: nat, owner: map<nat, seq<nat>>, areas: seq<MapArea>,
                 pages: map<nat, nat>, a: MapArea)
    requires SpaceOk(mem, live, root, owner, areas, pages) && a.start == a.end <= VPN_COUNT && a.frames == map[]
    ensures SpaceOk(mem, live, root, owner, areas + [a], pages)
  {
    hide Mapping, TreeOk, EntryOf;
    var areas' := areas + [a];
    forall k | 0 <= k < |areas'| ensures AreaOk(mem, root, areas'[k]) {
      if k < |areas| {
        assert AreaOk(mem, root, areas[k]);
      }
    }
    forall vpn: nat, f: nat ensures Backs(areas', vpn, f) <==> Backs(areas, vpn, f) {
      if Backs(areas, vpn, f) {
        var k :| 0 <= k < |areas| && vpn in areas[k].frames && areas[k].frames[vpn] == f;
        assert vpn in areas'[k].frames && areas'[k].frames[vpn] == f;
      }
    }
  }

  lemma DropEmpty(mem: map<nat, Frame>, live: set<nat>, root: nat, owner: map<nat, seq<nat>>, areas: seq<MapArea>,
                  pages: map<nat, nat>, i: nat)
    requires SpaceOk(mem, live, root, owner, areas, pages) && i < |areas| && areas[i].start == areas[i].end
    ensures SpaceOk(mem, live, root, owner, areas[..i] + areas[i + 1..], pages)
  {
    hide Mapping, TreeOk, EntryOf;
    var areas' := areas[..i] + areas[i + 1..];
    assert AreaOk(mem, root, areas[i]);
    forall k | 0 <= k < |areas'|
      ensures areas'[k] == areas[if k < i then k else k + 1] && AreaOk(mem, root, areas'[k]) {
      assert AreaOk(mem, root, areas[if k < i then k else k + 1]);
    }
    forall vpn: nat, f: nat ensures Backs(areas', vpn, f) <==> Backs(areas, vpn, f) {
      if Backs(areas, vpn, f) {
        var k :| 0 <= k < |areas| && vpn in areas[k].frames && areas[k].frames[vpn] == f;
        var k' := if k < i then k else k - 1;
        assert vpn in areas'[k'].frames && areas'[k'].frames[vpn] == f;
      }
      if Backs(areas', vpn, f) {
        var k :| 0 <= k < |areas'| && vpn in areas'[k].frames && areas'[k].frames[vpn] == f;
        var k' := if k < i then k else k + 1;
        assert vpn in areas[k'].frames && areas[k'].frames[vpn] == f;
      }
    }
  }

  // The page loops. `areas` and `pages` are the address space as it stands, with the area being
  // worked on shown as far as the loop has come.

  /** `map_one`: a Framed page gets a cleared frame of its own. `ok` is false on running out of frames. */
  method MapOne(a: MapArea, pt: PageTable, pm: PhysicalMemory, vpn: nat,
                ghost areas: seq<MapArea>, ghost pages: map<nat, nat>, ghost i: nat)
    returns (ok: bool, a': MapArea, ghost pages': map<nat, nat>)
    requires pt.Valid(pm) && SpaceOk(pm.mem, pm.Live(), pt.root, pt.owner, areas, pages)
    requires i < |areas| && areas[i] == a.(end := vpn) && vpn < VPN_COUNT && Mapping(pm.mem, pt.root, vpn).None?
    modifies pt, pm
    ensures old(pm.Free()) >= 3 ==> ok
    ensures ok ==>
              && pt.Valid(pm) && a' == a.(frames := a'.frames)
              && SpaceOk(pm.mem, pm.Live(), pt.root, pt.owner, areas[i := a'.(end := vpn + 1)], pages')
              && (forall w: nat | w < VPN_COUNT && w != vpn ::
                Mapping(pm.mem, pt.root, w) == old(Mapping(pm.mem, pt.root, w)))
              && Confined(old(pm.mem), old(pm.Live()), old(pt.owner.Keys) + pages.Keys, pm.mem, pm.Live(),
                pt.owner.Keys + pages'.Keys)
              && pages.Keys <= pages'.Keys <= pm.mem.Keys && (forall f | f in pages :: pm.mem[f] == old(pm.mem)[f])
              && (forall v | v in a.frames :: v in a'.frames && a'.frames[v] == a.frames[v])
              && (a.framed ==> vpn in a'.frames && a'.frames[vpn] in pm.mem && pm.mem[a'.frames[vpn]] == ZeroFrame())
              && pm.Free() >= old(pm.Free()) - 3
  {
    hide Mapping, PhysicalMemory.Valid, PhysicalMemory.Live, PhysicalMemory.Free, TreeOk, Pte, AreasOk, PagesOk,
        OnlyTables;
    a', pages' := a, pages;
    var ppn := vpn;
    ghost var mem, live := pm.mem, pm.Live();
    NotBacked(mem, pt.root, areas, i);
    if a.framed {
      var r := pm.Alloc();
      if r.None? {
        return false, a, pages;
      }
      ppn := r.value;
      AllocKeeps(mem, live, pt.root, pt.owner, areas, pages, ppn);
      a' := a.(frames := a.frames[vpn := ppn]);
      pages' := pages[ppn := vpn];
    }
    ghost var mem1, live1, owner1 := pm.mem, pm.Live(), pt.owner;
    assert ppn < PPN_COUNT;
    ok := pt.Map(pm, vpn, ppn, a.perm);
    if ok {
      LiveInMem(pm);
      MapCommit(mem, live, mem1, live1, owner1, pm.mem, pm.Live(), pt.owner, pt.root, areas, pages, i, ppn);
    }
  }

  /** The two halves of `map_one` put together. */
  lemma MapCommit(mem: map<nat, Frame>, live: set<nat>, mem1: map<nat, Frame>, live1: set<nat>,
            owner1: map<nat, seq<nat>>,
                  mem2: map<nat, Frame>, live2: set<nat>, owner2: map<nat, seq<nat>>, root: nat,
                  areas: seq<MapArea>, pages: map<nat, nat>, i: nat, f: nat)
    requires SpaceOk(mem, live, root, owner1, areas, pages) && SpaceOk(mem1, live1, root, owner1, areas, pages)
    requires i < |areas| && areas[i].end < VPN_COUNT && Mapping(mem1, root, areas[i].end).None?
    requires areas[i].framed ==> f !in live && f in mem && mem1 == mem[f := ZeroFrame()] && live1 == live + {f}
    requires !areas[i].framed ==> f == areas[i].end && mem1 == mem && live1 == live
    requires TreeOk(mem2, root, owner2) && owner2.Keys <= live2 <= mem2.Keys
    requires OnlyTables(mem1, live1, owner1.Keys, mem2, live2, owner2.Keys)
    requires MappedOnly(mem1, mem2, root, areas[i].end, Some(Pte(f, WithV(areas[i].perm))))
    ensures
      var pages' := if areas[i].framed then pages[f := areas[i].end] else pages;
      && SpaceOk(mem2, live2, root, owner2, areas[i := Grown(areas[i], f)], pages')
      && Confined(mem, live, owner1.Keys + pages.Keys, mem2, live2, owner2.Keys + pages'.Keys)
      && (forall g | g in pages :: mem2[g] == mem[g])
      && (areas[i].framed ==> mem2[f] == ZeroFrame())
  {
    hide Mapping, TreeOk, Pte, AreasOk, PagesOk;
    var a := areas[i];
    GrowAreas(mem1, mem2, root, areas, i, f);
    if a.framed {
      NotBacked(mem1, root, areas, i);
      GrowPages(areas, pages, i, f);
    } else {
      SamePages(areas, areas[i := Grown(a, f)], pages);
    }
  }

  lemma SamePages(areas: seq<MapArea>, areas': seq<MapArea>, pages: map<nat, nat>)
    requires PagesOk(areas, pages) && |areas'| == |areas| && forall k | 0 <= k < |areas| ::
        areas'[k].frames == areas[k].frames
    ensures PagesOk(areas', pages)
  {
    forall vpn: nat, f: nat ensures Backs(areas', vpn, f) <==> Backs(areas, vpn, f) {
      if Backs(areas, vpn, f) {
        var k :| 0 <= k < |areas| && vpn in areas[k].frames && areas[k].frames[vpn] == f;
        assert vpn in areas'[k].frames && areas'[k].frames[vpn] == f;
      }
    }
  }

  lemma LiveInMem(pm: PhysicalMemory)
    requires pm.Valid()
    ensures pm.Live() <= pm.mem.Keys
  {
  }

  lemma NotBacked(mem: map<nat, Frame>, root: nat, areas: seq<MapArea>, i: nat)
    requires AreasOk(mem, root, areas) && i < |areas|
    ensures areas[i].end !in areas[i].frames
  {
    assert AreaOk(mem, root, areas[i]);
  }

  /** The loops of `MapArea::map` (from the start of the range) and `append_to` (from its end). */
  method MapRange(a: MapArea, pt: PageTable, pm: PhysicalMemory, lo: nat, hi: nat,
                  ghost areas: seq<MapArea>, ghost pages: map<nat, nat>, ghost i: nat)
    returns (ok: bool, a': MapArea, ghost pages': map<nat, nat>)
    requires pt.Valid(pm) && SpaceOk(pm.mem, pm.Live(), pt.root, pt.owner, areas, pages)
    requires i < |areas| && areas[i] == a.(end := lo) && lo <= hi <= VPN_COUNT
    requires forall w: nat | lo <= w < hi :: Mapping(pm.mem, pt.root, w).None?
    modifies pt, pm
    ensures old(pm.Free()) >= 3 * (hi - lo) ==> ok
    ensures ok ==> pm.Free() >= old(pm.Free()) - 3 * (hi - lo)
    ensures ok ==>
              && pt.Valid(pm) && a' == a.(frames := a'.frames)
              && SpaceOk(pm.mem, pm.Live(), pt.root, pt.owner, areas[i := a'.(end := hi)], pages')
              && (forall w: nat | w < VPN_COUNT && !(lo <= w < hi) ::
                Mapping(pm.mem, pt.root, w) == old(Mapping(pm.mem, pt.root, w)))
              && Confined(old(pm.mem), old(pm.Live()), old(pt.owner.Keys) + pages.Keys, pm.mem, pm.Live(),
                pt.owner.Keys + pages'.Keys)
              && pages.Keys <= pages'.Keys <= pm.mem.Keys && (forall f | f in pages :: pm.mem[f] == old(pm.mem)[f])
              && (forall v | v in a.frames :: v in a'.frames && a'.frames[v] == a.frames[v])
              && (a.framed ==>
                forall v: nat | lo <= v < hi ::
                v in a'.frames && a'.frames[v] in pages' && pm.mem[a'.frames[v]] == ZeroFrame())
  {
    hide Mapping, PhysicalMemory.Valid, PhysicalMemory.Live, PhysicalMemory.Free, SpaceOk, PageTable.Valid, Confined;
    ok, a', pages' := true, a, pages;
    ghost var areas' := areas;
    SpaceFacts(pm.mem, pm.Live(), pt.root, pt.owner, areas, pages);
    ConfinedRefl(pm.mem, pm.Live(), pt.owner.Keys + pages.Keys);
    var vpn := lo;
    while vpn < hi
      invariant lo <= vpn <= hi && pt.Valid(pm) && a' == a.(frames := a'.frames)
      invariant areas' == areas[i := a'.(end := vpn)] && SpaceOk(pm.mem, pm.Live(), pt.root, pt.owner, areas', pages')
      invariant forall w: nat | w < VPN_COUNT && !(lo <= w < vpn) ::
          Mapping(pm.mem, pt.root, w) == old(Mapping(pm.mem, pt.root, w))
      invariant Confined(old(pm.mem), old(pm.Live()), old(pt.owner.Keys) + pages.Keys, pm.mem, pm.Live(),
          pt.owner.Keys + pages'.Keys)
      invariant pages.Keys <= pages'.Keys <= pm.mem.Keys && pages.Keys <= old(pm.mem).Keys &&
          forall f | f in pages :: pm.mem[f] == old(pm.mem)[f]
      invariant forall v | v in a.frames :: v in a'.frames && a'.frames[v] == a.frames[v]
      invariant a.framed ==>
          forall v: nat | lo <= v < vpn ::
          v in a'.frames && a'.frames[v] in pages' && pm.mem[a'.frames[v]] == ZeroFrame()
      invariant pm.Free() >= old(pm.Free()) - 3 * (vpn - lo)
    {
      ghost var m1, l1, o1, p1 := pm.mem, pm.Live(), pt.owner.Keys, pages';
      var a1 := a';
      ok, a', pages' := MapOne(a1, pt, pm, vpn, areas', pages', i);
      if !ok {
        return;
      }
      ConfinedTrans(old(pm.mem), old(pm.Live()), old(pt.owner.Keys) + pages.Keys, m1, l1, o1 + p1.Keys,
                    pm.mem, pm.Live(), pt.owner.Keys + pages'.Keys);
      areas' := areas'[i := a'.(end := vpn + 1)];
      if a.framed {
        AreaFrames(pm.mem, pm.Live(), pt.root, pt.owner, areas', pages', i, vpn);
      }
      vpn := vpn + 1;
    }
  }

  lemma SpaceFacts(mem: map<nat, Frame>, live: set<nat>, root: nat, owner: map<nat, seq<nat>>, areas: seq<MapArea>,
            pages: map<nat, nat>)
    requires SpaceOk(mem, live, root, owner, areas, pages)
    ensures owner.Keys + pages.Keys <= live <= mem.Keys && owner.Keys !! pages.Keys && AreasOk(mem, root, areas)
  {
  }

  /** The frame of a page of an area is accounted for. */
  lemma AreaFrames(mem: map<nat, Frame>, live: set<nat>, root: nat, owner: map<nat, seq<nat>>, areas: seq<MapArea>,
                   pages: map<nat, nat>, i: nat, vpn: nat)
    requires SpaceOk(mem, live, root, owner, areas, pages) && i < |areas| && vpn in areas[i].frames
    ensures areas[i].frames[vpn] in pages && pages[areas[i].frames[vpn]] == vpn
  {
    assert Backs(areas, vpn, areas[i].frames[vpn]);
  }

  /** `unmap_one`: the frame goes back to the allocator, the entry is cleared. */
  method UnmapOne(a: MapArea, pt: PageTable, pm: PhysicalMemory, vpn: nat,
                  ghost areas: seq<MapArea>, ghost pages: map<nat, nat>, ghost i: nat)
    returns (a': MapArea, ghost pages': map<nat, nat>)
    requires pt.Valid(pm) && SpaceOk(pm.mem, pm.Live(), pt.root, pt.owner, areas, pages)
    requires i < |areas| && areas[i].start == vpn < areas[i].end && areas[i].framed == a.framed
    requires a.framed ==> vpn in a.frames && vpn in areas[i].frames && areas[i].frames[vpn] == a.frames[vpn]
    modifies pm
    ensures pt.Valid(pm) && a' == a.(frames := if a.framed then a.frames - {vpn} else a.frames)
    ensures SpaceOk(pm.mem, pm.Live(), pt.root, pt.owner, areas[i := Cut(areas[i])], pages')
    ensures forall w: nat | w < VPN_COUNT ::
        Mapping(pm.mem, pt.root, w) == if w == vpn then None else old(Mapping(pm.mem, pt.root, w))
    ensures pm.Free() >= old(pm.Free())
    ensures Confined(old(pm.mem), old(pm.Live()), pt.owner.Keys + pages.Keys, pm.mem, pm.Live(),
        pt.owner.Keys + pages'.Keys)
    ensures pages'.Keys <= pages.Keys <= old(pm.mem).Keys && pages.Keys <= pm.mem.Keys && forall f | f in pages' ::
        pm.mem[f] == old(pm.mem)[f]
  {
    hide Mapping, PhysicalMemory.Valid, PhysicalMemory.Live, PhysicalMemory.Free, TreeOk, Pte, AreasOk, PagesOk,
        OnlyTables;
    a', pages' := a, pages;
    ghost var mem, live := pm.mem, pm.Live();
    MappedStart(mem, pt.root, areas, i);
    if a.framed {
      var f := a.frames[vpn];
      CutPages(areas, pages, i, mem, pt.root);
      pm.Dealloc(f);
      a' := a.(frames := a.frames - {vpn});
      pages' := pages - {f};
    }
    ghost var live1 := pm.Live();
    pt.Unmap(pm, vpn);
    LiveInMem(pm);
    UnmapCommit(mem, live, live1, pm.mem, pm.Live(), pt.root, pt.owner, areas, pages, i);
  }

  lemma MappedStart(mem: map<nat, Frame>, root: nat, areas: seq<MapArea>, i: nat)
    requires AreasOk(mem, root, areas) && i < |areas| && areas[i].start < areas[i].end
    ensures Mapping(mem, root, areas[i].start).Some? && areas[i].start < VPN_COUNT
  {
    assert AreaOk(mem, root, areas[i]) && areas[i].Has(areas[i].start);
  }

  lemma UnmapCommit(mem: map<nat, Frame>, live: set<nat>, live1: set<nat>, mem2: map<nat, Frame>, live2: set<nat>,
            root: nat,
                    owner: map<nat, seq<nat>>, areas: seq<MapArea>, pages: map<nat, nat>, i: nat)
    requires SpaceOk(mem, live, root, owner, areas, pages)
    requires i < |areas| && areas[i].start < areas[i].end
    requires areas[i].framed ==> areas[i].start in areas[i].frames && live1 == live - {areas[i].frames[areas[i].start]}
    requires !areas[i].framed ==> live1 == live
    requires TreeOk(mem2, root, owner) && owner.Keys <= live2 <= mem2.Keys
    requires OnlyTables(mem, live1, owner.Keys, mem2, live2, owner.Keys)
    requires MappedOnly(mem, mem2, root, areas[i].start, None)
    ensures
      var pages' := if areas[i].framed then pages - {areas[i].frames[areas[i].start]} else pages;
      && SpaceOk(mem2, live2, root, owner, areas[i := Cut(areas[i])], pages')
      && Confined(mem, live, owner.Keys + pages.Keys, mem2, live2, owner.Keys + pages'.Keys)
      && (forall g | g in pages :: mem2[g] == mem[g])
  {
    hide Mapping, TreeOk, Pte, AreasOk, PagesOk;
    CutAreas(mem, mem2, root, areas, i);
    if areas[i].framed {
      CutPages(areas, pages, i, mem, root);
    } else {
      NoFrames(mem, root, areas, i);
      assert areas[i].frames - {areas[i].start} == areas[i].frames;
      SamePages(areas, areas[i := Cut(areas[i])], pages);
    }
  }

  lemma NoFrames(mem: map<nat, Frame>, root: nat, areas: seq<MapArea>, i: nat)
    requires AreasOk(mem, root, areas) && i < |areas| && !areas[i].framed
    ensures areas[i].frames == map[]
  {
    assert AreaOk(mem, root, areas[i]);
  }

  function Without(frames: map<nat, nat>, lo: nat, hi: nat): map<nat, nat> {
    map v | v in frames && !(lo <= v < hi) :: frames[v]
  }

  lemma CutPart(a: MapArea, vpn: nat, hi: nat)
    requires vpn < hi
    ensures Cut(Part(a, vpn, hi)) == Part(a, vpn + 1, hi)
  {
    assert Part(a, vpn, hi).frames - {vpn} == Part(a, vpn + 1, hi).frames;
  }

  lemma WithoutOne(frames: map<nat, nat>, lo: nat, vpn: nat)
    requires lo <= vpn
    ensures Without(frames, lo, vpn) - {vpn} == Without(frames, lo, vpn + 1) && Without(frames, lo, lo) == frames
  {
  }

  /** The loops of `MapArea::unmap` and `shrink_to`: the pages from `lo` to `hi` leave the area. */
  method UnmapRange(a: MapArea, pt: PageTable, pm: PhysicalMemory, lo: nat, hi: nat,
                    ghost areas: seq<MapArea>, ghost pages: map<nat, nat>, ghost i: nat)
    returns (a': MapArea, ghost pages': map<nat, nat>)
    requires pt.Valid(pm) && SpaceOk(pm.mem, pm.Live(), pt.root, pt.owner, areas, pages)
    requires i < |areas| && areas[i] == Part(a, lo, hi) && lo <= hi
    modifies pm
    ensures pt.Valid(pm) && a' == a.(frames := if a.framed then Without(a.frames, lo, hi) else a.frames)
    ensures SpaceOk(pm.mem, pm.Live(), pt.root, pt.owner, areas[i := Part(a, hi, hi)], pages')
    ensures forall w: nat | w < VPN_COUNT ::
        Mapping(pm.mem, pt.root, w) == if lo <= w < hi then None else old(Mapping(pm.mem, pt.root, w))
    ensures pm.Free() >= old(pm.Free())
    ensures Confined(old(pm.mem), old(pm.Live()), pt.owner.Keys + pages.Keys, pm.mem, pm.Live(),
        pt.owner.Keys + pages'.Keys)
    ensures pages'.Keys <= pages.Keys <= old(pm.mem).Keys && pages.Keys <= pm.mem.Keys && forall f | f in pages' ::
        pm.mem[f] == old(pm.mem)[f]
  {
    hide Mapping, PhysicalMemory.Valid, PhysicalMemory.Live, PhysicalMemory.Free, SpaceOk, PageTable.Valid,
        Confined, Cut, Without;
    a', pages' := a, pages;
    ghost var areas' := areas;
    SpaceFacts(pm.mem, pm.Live(), pt.root, pt.owner, areas, pages);
    ConfinedRefl(pm.mem, pm.Live(), pt.owner.Keys + pages.Keys);
    WithoutOne(a.frames, lo, lo);
    var vpn := lo;
    while vpn < hi
      invariant lo <= vpn <= hi && pt.Valid(pm) &&
          a' == a.(frames := if a.framed then Without(a.frames, lo, vpn) else a.frames)
      invariant areas' == areas[i := Part(a, vpn, hi)] && SpaceOk(pm.mem, pm.Live(), pt.root, pt.owner, areas', pages')
      invariant forall w: nat | w < VPN_COUNT ::
          Mapping(pm.mem, pt.root, w) == if lo <= w < vpn then None else old(Mapping(pm.mem, pt.root, w))
      invariant pm.Free() >= old(pm.Free())
      invariant Confined(old(pm.mem), old(pm.Live()), pt.owner.Keys + pages.Keys, pm.mem, pm.Live(),
          pt.owner.Keys + pages'.Keys)
      invariant pages'.Keys <= pages.Keys <= old(pm.mem).Keys && pages.Keys <= pm.mem.Keys &&
          forall f | f in pages' :: pm.mem[f] == old(pm.mem)[f]
    {
      ghost var m1, l1, p1 := pm.mem, pm.Live(), pages';
      var a1 := a';
      if a.framed {
        StartBacked(pm.mem, pm.Live(), pt.root, pt.owner, areas', pages', i);
        WithoutHas(a.frames, lo, vpn);
      }
      a', pages' := UnmapOne(a1, pt, pm, vpn, areas', pages', i);
      ConfinedTrans(old(pm.mem), old(pm.Live()), pt.owner.Keys + pages.Keys, m1, l1, pt.owner.Keys + p1.Keys,
                    pm.mem, pm.Live(), pt.owner.Keys + pages'.Keys);
      CutPart(a, vpn, hi);
      WithoutOne(a.frames, lo, vpn);
      areas' := areas'[i := Part(a, vpn + 1, hi)];
      vpn := vpn + 1;
    }
  }

  lemma StartBacked(mem: map<nat, Frame>, live: set<nat>, root: nat, owner: map<nat, seq<nat>>, areas: seq<MapArea>,
                    pages: map<nat, nat>, i: nat)
    requires SpaceOk(mem, live, root, owner, areas, pages) && i < |areas| && areas[i].framed &&
        areas[i].start < areas[i].end
    ensures areas[i].start in areas[i].frames
  {
    assert AreaOk(mem, root, areas[i]) && areas[i].Has(areas[i].start);
  }

  lemma WithoutHas(frames: map<nat, nat>, lo: nat, vpn: nat)
    ensures vpn in frames && lo <= vpn ==>
        vpn in Without(frames, lo, vpn) && Without(frames, lo, vpn)[vpn] == frames[vpn]
  {
  }

  /** Number of the first area that starts at `start`, or the number of areas. */
  function First(areas: seq<MapArea>, start: nat): (k: nat)
    ensures k <= |areas| && (k < |areas| ==> areas[k].start == start)
    ensures forall i | 0 <= i < k :: areas[i].start != start
  {
    if areas == [] then 0
    else
      var n := |areas| - 1;
      var k := First(areas[..n], start);
      if k < n then k else if areas[n].start == start then n else n + 1
  }

  /** `MapArea::new`: the pages from the floor of the first address to the ceiling of the last. */
  function NewArea(startVa: nat, endVa: nat, framed: bool, perm: Flags): MapArea
    requires endVa > 0
  {
    MapArea(Floor(startVa), Ceil(endVa), map[], framed, perm)
  }

  /** Page `w` has an address in the byte range. */
  ghost predicate Meets(w: nat, startVa: nat, endVa: nat) {
    w * PAGE_SIZE < endVa && startVa < (w + 1) * PAGE_SIZE
  }

  /** The pages of a new area are exactly those that meet its byte range. */
  lemma AreaMeets(startVa: nat, endVa: nat, framed: bool, perm: Flags)
    requires startVa < VA_COUNT && 0 < endVa < VA_COUNT
    ensures var a := NewArea(startVa, endVa, framed, perm);
            a.start < VPN_COUNT && a.end <= VPN_COUNT && forall w: nat :: a.Has(w) <==> Meets(w, startVa, endVa)
  {
    forall w: nat ensures NewArea(startVa, endVa, framed, perm).Has(w) <==> Meets(w, startVa, endVa) {
      RangeOfPages(startVa, endVa, w);
    }
  }

  lemma AddressMeets(va: nat, startVa: nat, endVa: nat)
    requires startVa <= va < endVa
    ensures Meets(Floor(va), startVa, endVa)
  {
    assert va == Floor(va) * PAGE_SIZE + va % PAGE_SIZE;
  }

  lemma FramedPage(mem: map<nat, Frame>, live: set<nat>, root: nat, owner: map<nat, seq<nat>>, areas: seq<MapArea>,
                   pages: map<nat, nat>, k: nat, w: nat)
    requires SpaceOk(mem, live, root, owner, areas, pages) && k < |areas| && areas[k].framed && areas[k].Has(w)
    ensures w in areas[k].frames && Mapping(mem, root, w) == Some(Pte(areas[k].frames[w], WithV(areas[k].perm)))
  {
    hide Mapping, TreeOk, PagesOk, Pte, WithV;
    assert AreaOk(mem, root, areas[k]);
  }

  /** A page of an Identical area is mapped to the frame of the same number. */
  lemma IdenticalPages(mem: map<nat, Frame>, live: set<nat>, root: nat, owner: map<nat, seq<nat>>, areas: seq<MapArea>,
                       pages: map<nat, nat>, k: nat)
    requires SpaceOk(mem, live, root, owner, areas, pages) && k < |areas| && !areas[k].framed
    ensures forall v: nat | areas[k].Has(v) ::
              Mapping(mem, root, v).Some? && Grants(Mapping(mem, root, v).value, v, areas[k].perm)
  {
    hide Mapping, TreeOk, PagesOk, Pte, WithV, Grants;
    assert AreaOk(mem, root, areas[k]);
    forall v: nat | areas[k].Has(v)
      ensures Mapping(mem, root, v).Some? && Grants(Mapping(mem, root, v).value, v, areas[k].perm)
    {
      EntryGrants(v, areas[k].perm);
    }
  }

  lemma FrameInRange(pt: PageTable, pm: PhysicalMemory, f: nat)
    requires pt.Valid(pm) && f in pm.Live()
    ensures f < PPN_COUNT
  {
  }

  class MemorySet {
    const pt: PageTable
    var areas: seq<MapArea>
    ghost var pages: map<nat, nat>

    ghost predicate Valid(pm: PhysicalMemory)
      reads this, pt, pm
    {
      pt.Valid(pm) && SpaceOk(pm.mem, pm.Live(), pt.root, pt.owner, areas, pages)
    }

    /** The frames this address space holds: its tables and its data pages. */
    ghost function Owned(): set<nat>
      reads this, pt
    {
      pt.owner.Keys + pages.Keys
    }

    /** `new_bare` */
    constructor (pm: PhysicalMemory)
      requires pm.Valid() && pm.Free() > 0
      modifies pm
      ensures Valid(pm) && areas == [] && pages == map[] && fresh(pt) && pm.Free() == old(pm.Free()) - 1
      ensures Confined(old(pm.mem), old(pm.Live()), {}, pm.mem, pm.Live(), Owned())
      ensures forall w: nat | w < VPN_COUNT :: Mapping(pm.mem, pt.root, w).None?
    {
      hide Mapping, PhysicalMemory.Valid, PhysicalMemory.Live, PhysicalMemory.Free, TreeOk;
      pt := new PageTable(pm);
      areas, pages := [], map[];
      new;
      LiveInMem(pm);
      assert Owned() == pt.owner.Keys;
    }

    /** `push` without data: the whole range of a new area becomes mapped, a Framed one to cleared
        frames of its own; all other mappings, areas and pages stay. */
    method Push(pm: PhysicalMemory, a: MapArea) returns (ok: bool)
      requires Valid(pm) && a.frames == map[] && a.start <= a.end <= VPN_COUNT
      requires forall w: nat | a.Has(w) :: Mapping(pm.mem, pt.root, w).None?
      modifies this, pt, pm
      ensures old(pm.Free()) >= 3 * (a.end - a.start) ==> ok
      ensures ok ==> pm.Free() >= old(pm.Free()) - 3 * (a.end - a.start)
      ensures ok ==>
                && Valid(pm) && |areas| == |old(areas)| + 1 && areas[..|old(areas)|] == old(areas)
                && areas[|old(areas)|] == a.(frames := areas[|old(areas)|].frames)
                && (forall w: nat | w < VPN_COUNT && !a.Has(w) ::
                  Mapping(pm.mem, pt.root, w) == old(Mapping(pm.mem, pt.root, w)))
                && Confined(old(pm.mem), old(pm.Live()), old(Owned()), pm.mem, pm.Live(), Owned())
                && old(pages.Keys) <= pages.Keys <= pm.mem.Keys &&
                  (forall f | f in old(pages) :: pm.mem[f] == old(pm.mem)[f])
                && (a.framed ==> forall v: nat | a.Has(v) ::
                      var fr := areas[|old(areas)|].frames; v in fr && fr[v] in pages && pm.mem[fr[v]] == ZeroFrame())
                && (!a.framed ==> forall v: nat | a.Has(v) ::
                      Mapping(pm.mem, pt.root, v).Some? && Grants(Mapping(pm.mem, pt.root, v).value, v, a.perm))
    {
      hide Mapping, PhysicalMemory.Valid, PhysicalMemory.Live, PhysicalMemory.Free, SpaceOk, PageTable.Valid, Confined,
          Grants;
      AddEmpty(pm.mem, pm.Live(), pt.root, pt.owner, areas, pages, a.(end := a.start));
      var a';
      ghost var pages';
      ok, a', pages' := MapRange(a, pt, pm, a.start, a.end, areas + [a.(end := a.start)], pages, |areas|);
      if ok {
        assert (areas + [a.(end := a.start)])[|areas| := a'.(end := a.end)] == areas + [a'];
        areas, pages := areas + [a'], pages';
        if !a.framed {
          IdenticalPages(pm.mem, pm.Live(), pt.root, pt.owner, areas, pages, |areas| - 1);
        }
      }
    }

    /** `insert_framed_area`: afterwards every address of the byte range translates to a cleared page
        of its own with the given permissions, and a page that does not meet the range is mapped as before. */
    method InsertFramedArea(pm: PhysicalMemory, startVa: nat, endVa: nat, perm: Flags) returns (ok: bool)
      requires Valid(pm) && startVa < VA_COUNT && 0 < endVa < VA_COUNT && Floor(startVa) <= Ceil(endVa)
      requires forall w: nat | Meets(w, startVa, endVa) :: Mapping(pm.mem, pt.root, w).None?
      modifies this, pt, pm
      ensures old(pm.Free()) >= 3 * (Ceil(endVa) - Floor(startVa)) ==> ok
      ensures ok ==> Valid(pm) && |areas| == |old(areas)| + 1 && areas[..|old(areas)|] == old(areas)
      ensures ok ==> forall va: nat | startVa <= va < endVa ::
                var fr := areas[|old(areas)|].frames; var w := Floor(va);
                && w in fr && fr[w] in pm.mem && pm.mem[fr[w]] == ZeroFrame()
                && Mapping(pm.mem, pt.root, w) == Some(Pte(fr[w], WithV(perm)))
                && Grants(Mapping(pm.mem, pt.root, w).value, fr[w], perm)
      ensures ok ==> forall w: nat | w < VPN_COUNT && !Meets(w, startVa, endVa) ::
                Mapping(pm.mem, pt.root, w) == old(Mapping(pm.mem, pt.root, w))
    {
      hide Mapping, PhysicalMemory.Valid, PhysicalMemory.Live, PhysicalMemory.Free, SpaceOk, PageTable.Valid, Confined;
      hide Pte, WithV, Grants, Meets, Floor, Ceil;
      var a := NewArea(startVa, endVa, true, perm);
      AreaMeets(startVa, endVa, true, perm);
      ok := Push(pm, a);
      if ok {
        ghost var k := |areas| - 1;
        forall va: nat | startVa <= va < endVa
          ensures var fr := areas[k].frames; var w := Floor(va);
                  && w in fr && fr[w] in pm.mem && pm.mem[fr[w]] == ZeroFrame()
                  && Mapping(pm.mem, pt.root, w) == Some(Pte(fr[w], WithV(perm)))
                  && Grants(Mapping(pm.mem, pt.root, w).value, fr[w], perm)
        {
          AddressMeets(va, startVa, endVa);
          FramedPage(pm.mem, pm.Live(), pt.root, pt.owner, areas, pages, k, Floor(va));
          SpaceFacts(pm.mem, pm.Live(), pt.root, pt.owner, areas, pages);
          FrameInRange(pt, pm, areas[k].frames[Floor(va)]);
          EntryGrants(areas[k].frames[Floor(va)], perm);
        }
      }
    }

    /** Index of the first area that starts at `start`, or the number of areas. */
    method FindArea(start: nat) returns (k: nat)
      ensures k == First(areas, start)
    {
      k := 0;
      while k < |areas| && areas[k].start != start
        invariant 0 <= k <= |areas| && forall i | 0 <= i < k :: areas[i].start != start
      {
        k := k + 1;
      }
    }

    /** `remove_area_with_start_vpn`: the first such area disappears with its mappings and frames. */
    method RemoveArea(pm: PhysicalMemory, start: nat) returns (k: nat)
      requires Valid(pm)
      modifies this, pm
      ensures Valid(pm) && k == First(old(areas), start) && pm.Free() >= old(pm.Free())
      ensures k == |old(areas)| ==>
          areas == old(areas) && pm.mem == old(pm.mem) && pm.Live() == old(pm.Live()) && pages == old(pages)
      ensures k < |old(areas)| ==>
                && areas == old(areas)[..k] + old(areas)[k + 1..]
                && (forall w: nat | w < VPN_COUNT :: Mapping(pm.mem, pt.root, w) ==
                      if old(areas)[k].Has(w) then None else old(Mapping(pm.mem, pt.root, w)))
      ensures Confined(old(pm.mem), old(pm.Live()), old(Owned()), pm.mem, pm.Live(), Owned())
      ensures pages.Keys <= old(pages.Keys) && pages.Keys <= old(pm.mem).Keys && pages.Keys <= pm.mem.Keys
      ensures forall f | f in pages :: pm.mem[f] == old(pm.mem)[f]
    {
      hide Mapping, PhysicalMemory.Valid, PhysicalMemory.Live, PhysicalMemory.Free, SpaceOk, PageTable.Valid, Confined;
      SpaceFacts(pm.mem, pm.Live(), pt.root, pt.owner, areas, pages);
      ConfinedRefl(pm.mem, pm.Live(), Owned());
      k := FindArea(start);
      if k == |areas| {
        return;
      }
      var a := areas[k];
      WholePart(pm.mem, pt.root, areas, k);
      ghost var pages', areas1 := pages, areas;
      a, pages' := UnmapRange(a, pt, pm, a.start, a.end, areas, pages, k);
      areas1 := areas[k := Part(areas[k], a.end, a.end)];
      DropEmpty(pm.mem, pm.Live(), pt.root, pt.owner, areas1, pages', k);
      assert areas1[..k] + areas1[k + 1..] == areas[..k] + areas[k + 1..];
      areas, pages := areas[..k] + areas[k + 1..], pages';
    }

    /** `append_to`: the area starting at `start` is extended to `newEnd`. */
    method AppendTo(pm: PhysicalMemory, start: nat, newEnd: nat) returns (found: bool, ok: bool, k: nat)
      requires Valid(pm)
      requires First(areas, start) < |areas| ==> areas[First(areas, start)].end <= newEnd <= VPN_COUNT
      requires First(areas, start) < |areas| ==>
                 forall w: nat | areas[First(areas, start)].end <= w < newEnd :: Mapping(pm.mem, pt.root, w).None?
      modifies this, pt, pm
      ensures k == First(old(areas), start) && (found <==> k < |old(areas)|)
      ensures !found ==> ok && Valid(pm) && areas == old(areas) && pm.mem == old(pm.mem)
      ensures !found ==> pm.Live() == old(pm.Live()) && pm.Free() == old(pm.Free())
      ensures found && old(pm.Free()) >= 3 * (newEnd - old(areas)[k].end) ==> ok
      ensures found && ok ==> pm.Free() >= old(pm.Free()) - 3 * (newEnd - old(areas)[k].end)
      ensures found && ok ==>
                && Valid(pm)
                && |areas| == |old(areas)| &&
                  areas == old(areas)[k := old(areas)[k].(end := newEnd, frames := areas[k].frames)]
                && (forall w: nat | w < VPN_COUNT && !(old(areas)[k].end <= w < newEnd) ::
                      Mapping(pm.mem, pt.root, w) == old(Mapping(pm.mem, pt.root, w)))
                && (forall v | v in old(areas)[k].frames ::
                  v in areas[k].frames && areas[k].frames[v] == old(areas)[k].frames[v])
      ensures ok ==>
                && Confined(old(pm.mem), old(pm.Live()), old(Owned()), pm.mem, pm.Live(), Owned())
                && old(pages.Keys) <= pages.Keys <= pm.mem.Keys &&
                  (forall f | f in old(pages) :: pm.mem[f] == old(pm.mem)[f])
    {
      hide Mapping, PhysicalMemory.Valid, PhysicalMemory.Live, PhysicalMemory.Free, SpaceOk, PageTable.Valid, Confined;
      SpaceFacts(pm.mem, pm.Live(), pt.root, pt.owner, areas, pages);
      ConfinedRefl(pm.mem, pm.Live(), Owned());
      k := FindArea(start);
      found, ok := k < |areas|, true;
      if !found {
        return;
      }
      var a;
      ghost var pages';
      ok, a, pages' := MapRange(areas[k], pt, pm, areas[k].end, newEnd, areas, pages, k);
      if ok {
        areas, pages := areas[k := a.(end := newEnd)], pages';
      }
    }

    /** `shrink_to`: the area starting at `start` keeps the pages below `newEnd` only. */
    method ShrinkTo(pm: PhysicalMemory, start: nat, newEnd: nat) returns (found: bool, k: nat)
      requires Valid(pm)
      requires First(areas, start) < |areas| ==> start <= newEnd <= areas[First(areas, start)].end
      modifies this, pm
      ensures Valid(pm) && k == First(old(areas), start) && (found <==> k < |old(areas)|)
      ensures pm.Free() >= old(pm.Free())
      ensures !found ==> areas == old(areas) && pm.mem == old(pm.mem) && pm.Live() == old(pm.Live())
      ensures found ==>
                && areas == old(areas)[k := Part(old(areas)[k], start, newEnd)]
                && (forall w: nat | w < VPN_COUNT :: Mapping(pm.mem, pt.root, w) ==
                      if newEnd <= w < old(areas)[k].end then None else old(Mapping(pm.mem, pt.root, w)))
      ensures Confined(old(pm.mem), old(pm.Live()), old(Owned()), pm.mem, pm.Live(), Owned())
      ensures pages.Keys <= old(pages.Keys) && pages.Keys <= old(pm.mem).Keys && pages.Keys <= pm.mem.Keys
      ensures forall f | f in pages :: pm.mem[f] == old(pm.mem)[f]
    {
      hide Mapping, PhysicalMemory.Valid, PhysicalMemory.Live, PhysicalMemory.Free, SpaceOk, PageTable.Valid, Confined;
      SpaceFacts(pm.mem, pm.Live(), pt.root, pt.owner, areas, pages);
      ConfinedRefl(pm.mem, pm.Live(), Owned());
      k := FindArea(start);
      found := k < |areas|;
      if !found {
        return;
      }
      var a := areas[k];
      SplitArea(pm.mem, pm.Live(), pt.root, pt.owner, areas, pages, k, newEnd);
      ghost var areas1 := areas[k := Part(a, start, newEnd)] + [Part(a, newEnd, a.end)];
      var a';
      ghost var pages';
      ShrunkFrames(pm.mem, pt.root, areas, k, newEnd);
      a', pages' := UnmapRange(a, pt, pm, newEnd, a.end, areas1, pages, |areas|);
      ghost var areas2 := areas1[|areas| := Part(a, a.end, a.end)];
      DropEmpty(pm.mem, pm.Live(), pt.root, pt.owner, areas2, pages', |areas|);
      assert areas2[..|areas|] + areas2[|areas| + 1..] == areas[k := Part(a, start, newEnd)];
      areas, pages := areas[k := a'.(end := newEnd)], pages';
    }
  }

  lemma WholePart(mem: map<nat, Frame>, root: nat, areas: seq<MapArea>, k: nat)
    requires AreasOk(mem, root, areas) && k < |areas|
    ensures areas[k] == Part(areas[k], areas[k].start, areas[k].end) && areas[k].start <= areas[k].end
  {
    assert AreaOk(mem, root, areas[k]);
  }

  lemma ShrunkFrames(mem: map<nat, Frame>, root: nat, areas: seq<MapArea>, k: nat, newEnd: nat)
    requires AreasOk(mem, root, areas) && k < |areas| && areas[k].start <= newEnd <= areas[k].end
    ensures var a := areas[k];
            a.(end := newEnd, frames := if a.framed then Without(a.frames, newEnd, a.end) else a.frames) ==
              Part(a, a.start, newEnd)
  {
    assert AreaOk(mem, root, areas[k]);
  }
}
