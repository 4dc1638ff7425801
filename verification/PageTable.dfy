/** The frame allocator and the three-level page table (os/src/mm/frame_allocator.rs,
    os/src/mm/page_table.rs). */
module PageTables {
  import opened Basics
  import opened Address
  import opened Bits

  /** A frame as 512 words. */
  type Frame = f: seq<nat> | |f| == 512 witness seq(512, _ => 0)

  function ZeroFrame(): (f: Frame)
    ensures forall i | 0 <= i < 512 :: f[i] == 0
  {
    seq(512, _ => 0)
  }

  /** FRAME_ALLOCATOR together with the memory it hands out. */
  class PhysicalMemory {
    ghost const base: nat
    var current: nat
    const end: nat
    var recycled: seq<nat>
    var mem: map<nat, Frame>

    ghost predicate Valid()
      reads this
    {
      && base <= current <= end <= PPN_COUNT
      && (forall f | base <= f < end :: f in mem)
      && (forall i | 0 <= i < |recycled| :: base <= recycled[i] < current)
      && (forall i, j | 0 <= i < j < |recycled| :: recycled[i] != recycled[j])
    }

    /** Frames handed out and not given back. */
    ghost function Live(): set<nat>
      reads this
    {
      set f | base <= f < current && f !in recycled
    }

    /** Frames that can still be handed out. */
    function Free(): nat
      reads this
    {
      (if current <= end then end - current else 0) + |recycled|
    }

    /** `init` on the frames from `l` up to `r`, with whatever memory holds at the start. */
    constructor (l: nat, r: nat, mem: map<nat, Frame>)
      requires l <= r <= PPN_COUNT && forall f | l <= f < r :: f in mem
      ensures Valid() && Live() == {} && Free() == r - l && base == l && this.mem == mem
    {
      base, current, end, recycled, this.mem := l, l, r, [], mem;
    }

    /** `frame_alloc`: a frame nobody holds, cleared; `None` exactly when all are in use. */
    method Alloc() returns (r: Option<nat>)
      requires Valid()
      modifies this
      ensures Valid()
      ensures r.None? <==> old(Free()) == 0
      ensures r.None? ==> Live() == old(Live()) && mem == old(mem) && Free() == 0
      ensures r.Some? ==>
                && r.value !in old(Live()) && Live() == old(Live()) + {r.value} && r.value in old(mem) &&
                  r.value < PPN_COUNT
                && mem == old(mem)[r.value := ZeroFrame()] && Free() == old(Free()) - 1
    {
      if |recycled| > 0 {
        var f := recycled[|recycled| - 1];
        recycled := recycled[..|recycled| - 1];
        mem := mem[f := ZeroFrame()];
        assert Live() == old(Live()) + {f};
        r := Some(f);
      } else if current == end {
        r := None;
      } else {
        current := current + 1;
        mem := mem[current - 1 := ZeroFrame()];
        assert Live() == old(Live()) + {current - 1};
        r := Some(current - 1);
      }
    }

    /** `frame_dealloc` of a live frame: the "has not been allocated" panic is unreachable. */
    method Dealloc(f: nat)
      requires Valid() && f in Live()
      modifies this`recycled
      ensures Valid() && Live() == old(Live()) - {f} && Free() == old(Free()) + 1
    {
      assert f < current && f !in recycled;
      recycled := recycled + [f];
    }

    method Write(f: nat, i: nat, v: nat)
      requires Valid() && f in mem && i < 512
      modifies this`mem
      ensures Valid() && mem == old(mem)[f := old(mem)[f][i := v]] && Live() == old(Live()) && Free() == old(Free())
    {
      mem := mem[f := mem[f][i := v]];
    }
  }

  function Entry(mem: map<nat, Frame>, f: nat, i: nat): nat
    requires i < 512
  {
    if f in mem then mem[f][i] else 0
  }

  /** The leaf table of a page, if the two upper levels are present. */
  function LeafTable(mem: map<nat, Frame>, root: nat, vpn: nat): Option<nat> {
    var e0 := Entry(mem, root, Index(vpn, 0));
    if !IsValid(e0) then None else
      var e1 := Entry(mem, PpnOf(e0), Index(vpn, 1));
      if !IsValid(e1) then None else Some(PpnOf(e1))
  }

  /** A valid leaf entry, if there is one: what a page is mapped to. */
  function Mapping(mem: map<nat, Frame>, root: nat, vpn: nat): Option<nat> {
    match LeafTable(mem, root, vpn)
    case None => None
    case Some(t) =>
      var e := Entry(mem, t, Index(vpn, 2));
      if IsValid(e) then Some(e) else None
  }

  /** What the memory management unit does for Sv39: nine bits of the page number select the entry at each
      level, from the top, and every entry on the way must be valid. */
  lemma SvWalk(mem: map<nat, Frame>, root: nat, vpn: nat, t1: nat, t2: nat)
    requires vpn < VPN_COUNT && root in mem && t1 in mem && t2 in mem
    requires IsValid(mem[root][vpn / 0x4_0000]) && PpnOf(mem[root][vpn / 0x4_0000]) == t1
    requires IsValid(mem[t1][vpn / 512 % 512]) && PpnOf(mem[t1][vpn / 512 % 512]) == t2
    ensures Mapping(mem, root, vpn) == if IsValid(mem[t2][vpn % 512]) then Some(mem[t2][vpn % 512]) else None
  {
    hide IsValid, PpnOf;
  }

  /** The finite map the tree stands for. */
  ghost function Abs(mem: map<nat, Frame>, root: nat): map<nat, nat> {
    map vpn | 0 <= vpn < VPN_COUNT && Mapping(mem, root, vpn).Some? :: Mapping(mem, root, vpn).value
  }

  /** `owner` gives every table frame its place: the indexes on the way to it from the root. Being a
      function, it makes the tables a tree in which no frame is shared. */
  ghost predicate TreeOk(mem: map<nat, Frame>, root: nat, owner: map<nat, seq<nat>>) {
    && root in owner && owner[root] == []
    && (forall f | f in owner :: f in mem && |owner[f]| <= 2)
    && (forall f, i | f in owner && |owner[f]| < 2 && 0 <= i < 512 && IsValid(mem[f][i]) ::
          PpnOf(mem[f][i]) in owner && owner[PpnOf(mem[f][i])] == owner[f] + [i])
  }

  ghost function Path(vpn: nat, n: nat): seq<nat>
    requires n <= 2
  {
    if n == 0 then [] else if n == 1 then [Index(vpn, 0)] else [Index(vpn, 0), Index(vpn, 1)]
  }

  /** A leaf table sits where the indexes say. */
  lemma LeafIsOwned(mem: map<nat, Frame>, root: nat, owner: map<nat, seq<nat>>, vpn: nat)
    requires TreeOk(mem, root, owner) && LeafTable(mem, root, vpn).Some?
    ensures var t := LeafTable(mem, root, vpn).value; t in owner && owner[t] == Path(vpn, 2)
  {
    hide IsValid, PpnOf, Index;
    var e0 := mem[root][Index(vpn, 0)];
    var t1 := PpnOf(e0);
    assert owner[t1] == [] + [Index(vpn, 0)];
    var e1 := mem[t1][Index(vpn, 1)];
    assert owner[PpnOf(e1)] == owner[t1] + [Index(vpn, 1)];
  }

  /** Walks stay inside the tables: memory elsewhere does not matter. */
  lemma MappingFrame(mem: map<nat, Frame>, mem': map<nat, Frame>, root: nat, owner: map<nat, seq<nat>>)
    requires TreeOk(mem, root, owner) && forall f | f in owner :: f in mem' && mem'[f] == mem[f]
    ensures TreeOk(mem', root, owner) && forall w: nat :: Mapping(mem', root, w) == Mapping(mem, root, w)
  {
    hide IsValid, PpnOf, Index;
    forall w: nat ensures Mapping(mem', root, w) == Mapping(mem, root, w) {
      var e0 := mem[root][Index(w, 0)];
      if IsValid(e0) {
        assert owner[PpnOf(e0)] == [] + [Index(w, 0)];
        var e1 := mem[PpnOf(e0)][Index(w, 1)];
        if IsValid(e1) {
          assert PpnOf(e1) in owner;
        }
      }
    }
  }

  /** A store into the leaf entry of one page changes that page's mapping alone. */
  lemma LeafStore(mem: map<nat, Frame>, root: nat, owner: map<nat, seq<nat>>, vpn: nat, v: nat, mem': map<nat, Frame>)
    requires TreeOk(mem, root, owner) && vpn < VPN_COUNT && LeafTable(mem, root, vpn).Some?
    requires var t := LeafTable(mem, root, vpn).value; t in mem && mem' == mem[t := mem[t][Index(vpn, 2) := v]]
    ensures TreeOk(mem', root, owner)
    ensures forall w | 0 <= w < VPN_COUNT ::
              Mapping(mem', root, w) == if w == vpn then if IsValid(v) then Some(v) else None else Mapping(mem, root, w)
  {
    hide IsValid, PpnOf, Index;
    LeafIsOwned(mem, root, owner, vpn);
    var t := LeafTable(mem, root, vpn).value;
    forall w | 0 <= w < VPN_COUNT
      ensures Mapping(mem', root, w) == if w == vpn then if IsValid(v) then Some(v) else None else Mapping(mem, root, w)
    {
      SameLeaf(mem, root, owner, mem', w, t);
      if LeafTable(mem, root, w).Some? {
        LeafIsOwned(mem, root, owner, w);
      }
      IndexesInjective(w, vpn);
    }
  }

  /** Changing a leaf table leaves all walks to leaf tables alone. */
  lemma SameLeaf(mem: map<nat, Frame>, root: nat, owner: map<nat, seq<nat>>, mem': map<nat, Frame>, w: nat, t: nat)
    requires TreeOk(mem, root, owner) && t in owner && |owner[t]| == 2
    requires forall f | f in owner && f != t :: f in mem' && mem'[f] == mem[f]
    ensures LeafTable(mem', root, w) == LeafTable(mem, root, w)
  {
    hide IsValid, PpnOf, Index;
    var e0 := mem[root][Index(w, 0)];
    if IsValid(e0) {
      assert owner[PpnOf(e0)] == [] + [Index(w, 0)];
    }
  }

  /** Linking an empty new table below a table entry that was not valid changes no mapping. */
  lemma LinkTable(mem: map<nat, Frame>, root: nat, owner: map<nat, seq<nat>>, f: nat, i: nat, n: nat,
                  mem': map<nat, Frame>, owner': map<nat, seq<nat>>)
    requires TreeOk(mem, root, owner) && f in owner && |owner[f]| < 2 && i < 512 && !IsValid(mem[f][i])
    requires n !in owner && n < PPN_COUNT && mem' == mem[n := ZeroFrame()][f := mem[f][i := Pte(n, V)]]
    requires owner' == owner[n := owner[f] + [i]]
    ensures TreeOk(mem', root, owner')
    ensures forall w | 0 <= w < VPN_COUNT :: Mapping(mem', root, w) == Mapping(mem, root, w)
  {
    hide Index, PpnOf, Pte, IsValid;
    PteRoundTrip(n, V);
    InvalidZero();
    forall w | 0 <= w < VPN_COUNT ensures Mapping(mem', root, w) == Mapping(mem, root, w) {
      LinkKeeps(mem, root, owner, f, i, n, mem', w);
    }
    forall g, k | g in owner' && |owner'[g]| < 2 && 0 <= k < 512 && IsValid(mem'[g][k])
      ensures PpnOf(mem'[g][k]) in owner' && owner'[PpnOf(mem'[g][k])] == owner'[g] + [k]
    {
      if g != n && !(g == f && k == i) {
        assert mem'[g][k] == mem[g][k];
      }
    }
  }

  lemma InvalidZero()
    ensures !IsValid(0)
  {
  }

  lemma LinkKeeps(mem: map<nat, Frame>, root: nat, owner: map<nat, seq<nat>>, f: nat, i: nat, n: nat,
                  mem': map<nat, Frame>, w: nat)
    requires TreeOk(mem, root, owner) && f in owner && |owner[f]| < 2 && i < 512 && !IsValid(mem[f][i])
    requires n !in owner && mem' == mem[n := ZeroFrame()][f := mem[f][i := Pte(n, V)]]
    requires IsValid(Pte(n, V)) && PpnOf(Pte(n, V)) == n && !IsValid(0)
    ensures Mapping(mem', root, w) == Mapping(mem, root, w)
  {
    hide Index, PpnOf, Pte, IsValid;
    assert f != n && mem'[n] == ZeroFrame() && mem'[f][i] == Pte(n, V);
    var e0 := mem[root][Index(w, 0)];
    if IsValid(e0) {
      var t1 := PpnOf(e0);
      assert owner[t1] == [] + [Index(w, 0)];
      assert t1 != root;
      var e1 := mem[t1][Index(w, 1)];
      assert mem'[root][Index(w, 0)] == e0;
      if IsValid(e1) {
        assert owner[PpnOf(e1)] == owner[t1] + [Index(w, 1)];
        assert PpnOf(e1) != f && PpnOf(e1) != n;
        assert mem'[t1][Index(w, 1)] == e1;
      }
    }
  }

  /** Tables that a walk for `vpn` would have to create. */
  function TablesMissing(mem: map<nat, Frame>, root: nat, vpn: nat): nat {
    var e0 := Entry(mem, root, Index(vpn, 0));
    if !IsValid(e0) then 2 else if !IsValid(Entry(mem, PpnOf(e0), Index(vpn, 1))) then 1 else 0
  }

  ghost predicate SameMappings(mem: map<nat, Frame>, mem': map<nat, Frame>, root: nat) {
    forall w | 0 <= w < VPN_COUNT :: Mapping(mem', root, w) == Mapping(mem, root, w)
  }

  lemma SameMappingsTrans(m1: map<nat, Frame>, m2: map<nat, Frame>, m3: map<nat, Frame>, root: nat)
    requires SameMappings(m1, m2, root) && SameMappings(m2, m3, root)
    ensures SameMappings(m1, m3, root)
  {
  }

  /** The first step of a walk stays inside the tree. */
  lemma RootEntry(mem: map<nat, Frame>, root: nat, owner: map<nat, seq<nat>>, vpn: nat)
    requires TreeOk(mem, root, owner)
    ensures Entry(mem, root, Index(vpn, 0)) == mem[root][Index(vpn, 0)]
    ensures var e := mem[root][Index(vpn, 0)]; IsValid(e) ==> PpnOf(e) in owner && PpnOf(e) != root && PpnOf(e) in mem
  {
    hide IsValid, PpnOf, Index;
    var e := mem[root][Index(vpn, 0)];
    if IsValid(e) {
      assert owner[PpnOf(e)] == [] + [Index(vpn, 0)];
    }
  }

  ghost predicate Distinct(s: seq<nat>) {
    forall i, j | 0 <= i < j < |s| :: s[i] != s[j]
  }

  ghost function Members(s: seq<nat>): set<nat> {
    set f | f in s
  }

  /** What a page table may do to memory: only its own tables change, and all it takes are frames
      that nobody held. */
  ghost predicate OnlyTables(mem: map<nat, Frame>, live: set<nat>, tables: set<nat>,
                             mem': map<nat, Frame>, live': set<nat>, tables': set<nat>) {
    && tables <= tables' && tables' - tables !! live && live' == live + (tables' - tables)
    && mem'.Keys == mem.Keys
    && forall f | f in mem && f !in tables' :: mem'[f] == mem[f]
  }

  lemma OnlyTablesRefl(mem: map<nat, Frame>, live: set<nat>, tables: set<nat>)
    ensures OnlyTables(mem, live, tables, mem, live, tables)
  {
  }

  lemma OnlyTablesLink(mem: map<nat, Frame>, live: set<nat>, tables: set<nat>, mem': map<nat, Frame>, t: nat,
            e: Frame, n: nat)
    requires t in tables && tables <= live && n !in live && n in mem && t in mem &&
        mem' == mem[n := ZeroFrame()][t := e]
    ensures OnlyTables(mem, live, tables, mem', live + {n}, tables + {n})
  {
  }

  lemma OnlyTablesTrans(m1: map<nat, Frame>, l1: set<nat>, t1: set<nat>, m2: map<nat, Frame>, l2: set<nat>,
            t2: set<nat>,
                        m3: map<nat, Frame>, l3: set<nat>, t3: set<nat>)
    requires OnlyTables(m1, l1, t1, m2, l2, t2) && OnlyTables(m2, l2, t2, m3, l3, t3)
    ensures OnlyTables(m1, l1, t1, m3, l3, t3)
  {
  }

  /** The entry leads to frame `ppn`, with exactly the permissions `flags` and the valid bit. */
  ghost predicate Grants(e: nat, ppn: nat, flags: Flags) {
    && (forall j: nat :: Bit(FlagsOf(e), j) <==> j == 0 || Bit(flags, j)) && PpnOf(e) == ppn
    && (forall j: nat | 10 <= j < 54 :: Bit(e, j) <==> Bit(ppn, j - 10))
  }

  lemma EntryGrants(ppn: nat, flags: Flags)
    requires ppn < PPN_COUNT
    ensures Grants(Pte(ppn, WithV(flags)), ppn, flags)
  {
    hide Bit, Pte, PpnOf, FlagsOf, WithV;
    PteRoundTrip(ppn, WithV(flags));
    WithVBits(flags);
    PteBits(ppn, WithV(flags));
  }

  class PageTable {
    const root: nat
    var frames: seq<nat>
    ghost var owner: map<nat, seq<nat>>

    ghost predicate Valid(pm: PhysicalMemory)
      reads this, pm
    {
      && pm.Valid() && TreeOk(pm.mem, root, owner) && owner.Keys <= pm.Live()
      && Distinct(frames) && Members(frames) == owner.Keys
    }

    /** `PageTable::new`: one cleared frame, nothing mapped. */
    constructor (pm: PhysicalMemory)
      requires pm.Valid() && pm.Free() > 0
      modifies pm
      ensures Valid(pm) && pm.Free() == old(pm.Free()) - 1
      ensures OnlyTables(old(pm.mem), old(pm.Live()), {}, pm.mem, pm.Live(), owner.Keys) &&
          forall w | 0 <= w < VPN_COUNT :: Mapping(pm.mem, root, w).None?
    {
      hide PhysicalMemory.Live, PhysicalMemory.Free, IsValid, PpnOf, Index;
      InvalidZero();
      var r := pm.Alloc();
      root, frames, owner := r.value, [r.value], map[r.value := []];
    }

    /** One level of `find_pte_create`: the table below entry `i` of table `t`, made if missing.
        `ok` is false where `frame_alloc().unwrap()` panics. */
    method Descend(pm: PhysicalMemory, t: nat, i: nat) returns (ok: bool, t': nat)
      requires Valid(pm) && t in owner && |owner[t]| < 2 && i < 512
      modifies this, pm
      ensures ok <==> IsValid(old(pm.mem[t][i])) || old(pm.Free()) > 0
      ensures ok ==>
                && Valid(pm) && t in owner && owner[t] == old(owner[t]) && IsValid(pm.mem[t][i]) &&
                  PpnOf(pm.mem[t][i]) == t'
                && t' in owner && owner[t'] == owner[t] + [i]
                && SameMappings(old(pm.mem), pm.mem, root)
                && OnlyTables(old(pm.mem), old(pm.Live()), old(owner.Keys), pm.mem, pm.Live(), owner.Keys)
                && pm.Free() == old(pm.Free()) - (if IsValid(old(pm.mem[t][i])) then 0 else 1)
                && (IsValid(old(pm.mem[t][i])) ==> pm.mem == old(pm.mem))
                && (!IsValid(old(pm.mem[t][i])) ==> pm.mem[t'] == ZeroFrame())
                && (forall f | f in old(owner) && f != t :: pm.mem[f] == old(pm.mem)[f])
    {
      hide IsValid, PpnOf, Pte, Mapping, PhysicalMemory.Live, PhysicalMemory.Free, OnlyTables;
      OnlyTablesRefl(pm.mem, pm.Live(), owner.Keys);
      if !IsValid(pm.mem[t][i]) {
        var r := pm.Alloc();
        if r.None? {
          return false, 0;
        }
        var n := r.value;
        pm.Write(t, i, Pte(n, V));
        OnlyTablesLink(old(pm.mem), old(pm.Live()), owner.Keys, pm.mem, t, pm.mem[t], n);
        ghost var owner' := owner[n := owner[t] + [i]];
        assert owner'.Keys == owner.Keys + {n};
        LinkTable(old(pm.mem), root, owner, t, i, n, pm.mem, owner');
        PteRoundTrip(n, V);
        frames, owner := frames + [n], owner';
        assert Members(frames) == owner.Keys;
      }
      ok, t' := true, PpnOf(pm.mem[t][i]);
    }

    /** `find_pte_create`: the place of the leaf entry; no mapping changes. */
    method FindPteCreate(pm: PhysicalMemory, vpn: nat) returns (ok: bool, t: nat, i: nat)
      requires Valid(pm) && vpn < VPN_COUNT
      modifies this, pm
      ensures ok <==> old(pm.Free()) >= TablesMissing(old(pm.mem), root, vpn)
      ensures ok ==>
                && Valid(pm) && LeafTable(pm.mem, root, vpn) == Some(t) && i == Index(vpn, 2)
                && SameMappings(old(pm.mem), pm.mem, root)
                && OnlyTables(old(pm.mem), old(pm.Live()), old(owner.Keys), pm.mem, pm.Live(), owner.Keys)
                && pm.Free() == old(pm.Free()) - TablesMissing(old(pm.mem), root, vpn)
    {
      hide IsValid, PpnOf, Index, OnlyTables, SameMappings, PhysicalMemory.Live, PhysicalMemory.Valid,
          PhysicalMemory.Free;
      InvalidZero();
      t, i := 0, 0;
      ghost var m0, l0, o0 := pm.mem, pm.Live(), owner.Keys;
      RootEntry(m0, root, owner, vpn);
      var idx := Indexes(vpn);
      var t1;
      ok, t1 := Descend(pm, root, idx[0]);
      if !ok {
        return;
      }
      ghost var m1, l1, o1 := pm.mem, pm.Live(), owner.Keys;
      ok, t := Descend(pm, t1, idx[1]);
      if !ok {
        return;
      }
      i := idx[2];
      OnlyTablesTrans(m0, l0, o0, m1, l1, o1, pm.mem, pm.Live(), owner.Keys);
      SameMappingsTrans(m0, m1, pm.mem, root);
    }

    /** `find_pte`: the place of the leaf entry if the upper levels are present. */
    method FindPte(pm: PhysicalMemory, vpn: nat) returns (r: Option<(nat, nat)>)
      requires Valid(pm)
      ensures r.None? <==> LeafTable(pm.mem, root, vpn).None?
      ensures r.Some? ==>
          LeafTable(pm.mem, root, vpn) == Some(r.value.0) && r.value.1 == Index(vpn, 2) && r.value.0 in owner
    {
      hide IsValid, PpnOf, Index;
      var idx := Indexes(vpn);
      var t := root;
      var k := 0;
      while k < 2
        invariant 0 <= k <= 2 && t in owner && owner[t] == Path(vpn, k)
        invariant k == 0 ==> t == root
        invariant k == 1 ==> IsValid(pm.mem[root][Index(vpn, 0)]) && t == PpnOf(pm.mem[root][Index(vpn, 0)])
        invariant k == 2 ==> LeafTable(pm.mem, root, vpn) == Some(t)
        invariant idx.Length == 3 && forall j | 0 <= j < 3 :: idx[j] == Index(vpn, j)
      {
        if !IsValid(pm.mem[t][idx[k]]) {
          return None;
        }
        assert owner[PpnOf(pm.mem[t][idx[k]])] == owner[t] + [idx[k]];
        t := PpnOf(pm.mem[t][idx[k]]);
        k := k + 1;
      }
      r := Some((t, idx[2]));
    }

    /** `map`: a page that was not mapped now is, and no other page changes. */
    method Map(pm: PhysicalMemory, vpn: nat, ppn: nat, flags: Flags) returns (ok: bool)
      requires Valid(pm) && vpn < VPN_COUNT && ppn < PPN_COUNT && Mapping(pm.mem, root, vpn).None?
      modifies this, pm
      ensures ok <==> old(pm.Free()) >= TablesMissing(old(pm.mem), root, vpn)
      ensures ok ==>
                && Valid(pm) && OnlyTables(old(pm.mem), old(pm.Live()), old(owner.Keys), pm.mem, pm.Live(), owner.Keys)
                && (forall w | 0 <= w < VPN_COUNT :: Mapping(pm.mem, root, w) ==
                      if w == vpn then Some(Pte(ppn, WithV(flags))) else Mapping(old(pm.mem), root, w))
                && pm.Free() == old(pm.Free()) - TablesMissing(old(pm.mem), root, vpn)
                && Grants(Mapping(pm.mem, root, vpn).value, ppn, flags)
    {
      hide Grants;
      hide IsValid, PpnOf, Pte, Mapping, LeafTable, Index, TablesMissing, PhysicalMemory.Live, PhysicalMemory.Free;
      var t, i;
      ok, t, i := FindPteCreate(pm, vpn);
      if !ok {
        return;
      }
      ghost var mem := pm.mem;
      assert t in owner by { LeafIsOwned(mem, root, owner, vpn); }
      pm.Write(t, i, Pte(ppn, WithV(flags)));
      LeafStore(mem, root, owner, vpn, Pte(ppn, WithV(flags)), pm.mem);
      PteRoundTrip(ppn, WithV(flags));
      EntryGrants(ppn, flags);
    }

    /** `unmap`: a mapped page no longer is, and no other page changes. */
    method Unmap(pm: PhysicalMemory, vpn: nat)
      requires Valid(pm) && vpn < VPN_COUNT && Mapping(pm.mem, root, vpn).Some?
      modifies pm`mem
      ensures Valid(pm) && OnlyTables(old(pm.mem), old(pm.Live()), owner.Keys, pm.mem, pm.Live(), owner.Keys)
      ensures pm.Free() == old(pm.Free())
      ensures forall w | 0 <= w < VPN_COUNT ::
          Mapping(pm.mem, root, w) == if w == vpn then None else Mapping(old(pm.mem), root, w)
    {
      hide IsValid, PpnOf, Pte, LeafTable, Index;
      var r := FindPte(pm, vpn);
      ghost var mem := pm.mem;
      pm.Write(r.value.0, r.value.1, 0);
      LeafStore(mem, root, owner, vpn, 0, pm.mem);
      InvalidZero();
    }

    /** `translate`: the leaf entry, valid or not, whenever the upper levels exist. The page is
        mapped exactly when that entry is valid. */
    method Translate(pm: PhysicalMemory, vpn: nat) returns (r: Option<nat>)
      requires Valid(pm)
      ensures r.None? <==> LeafTable(pm.mem, root, vpn).None?
      ensures Mapping(pm.mem, root, vpn).Some? <==> r.Some? && IsValid(r.value)
      ensures Mapping(pm.mem, root, vpn).Some? ==> r == Mapping(pm.mem, root, vpn)
    {
      hide IsValid, PpnOf, Index;
      var p := FindPte(pm, vpn);
      if p.None? {
        return None;
      }
      r := Some(pm.mem[p.value.0][p.value.1]);
    }
  }

  // Whole runs: the tree against the finite map.

  datatype PtOp = MapPage(vpn: nat, ppn: nat, flags: Flags) | UnmapPage(vpn: nat)

  function Update(m: map<nat, nat>, op: PtOp): map<nat, nat> {
    match op
    case MapPage(vpn, ppn, flags) => m[vpn := Pte(ppn, WithV(flags))]
    case UnmapPage(vpn) => m - {vpn}
  }

  function Updates(m: map<nat, nat>, ops: seq<PtOp>): map<nat, nat>
    decreases |ops|
  {
    if ops == [] then m else Updates(Update(m, ops[0]), ops[1..])
  }

  /** What the two assertions of `map` and `unmap` ask for. */
  predicate LegalOp(m: map<nat, nat>, op: PtOp) {
    match op
    case MapPage(vpn, ppn, _) => vpn < VPN_COUNT && ppn < PPN_COUNT && vpn !in m
    case UnmapPage(vpn) => vpn in m
  }

  predicate LegalRun(m: map<nat, nat>, ops: seq<PtOp>)
    decreases |ops|
  {
    ops == [] || (LegalOp(m, ops[0]) && LegalRun(Update(m, ops[0]), ops[1..]))
  }

  lemma AbsMember(mem: map<nat, Frame>, root: nat, vpn: nat)
    ensures vpn in Abs(mem, root) <==> vpn < VPN_COUNT && Mapping(mem, root, vpn).Some?
    ensures vpn in Abs(mem, root) ==> Mapping(mem, root, vpn) == Some(Abs(mem, root)[vpn])
  {
    hide Mapping;
  }

  lemma AbsUpdate(mem: map<nat, Frame>, mem': map<nat, Frame>, root: nat, vpn: nat, r: Option<nat>)
    requires vpn < VPN_COUNT
    requires forall w | 0 <= w < VPN_COUNT :: Mapping(mem', root, w) == if w == vpn then r else Mapping(mem, root, w)
    ensures Abs(mem', root) == match r case Some(e) => Abs(mem, root)[vpn := e] case None => Abs(mem, root) - {vpn}
  {
    hide Mapping;
  }

  /** The last operation on a page. */
  function LastOp(ops: seq<PtOp>, vpn: nat): Option<PtOp> {
    if ops == [] then None
    else if ops[|ops| - 1].vpn == vpn then Some(ops[|ops| - 1])
    else LastOp(ops[..|ops| - 1], vpn)
  }

  lemma {:induction false} UpdatesSnoc(m: map<nat, nat>, ops: seq<PtOp>, op: PtOp)
    ensures Updates(m, ops + [op]) == Update(Updates(m, ops), op)
    decreases |ops|
  {
    if ops == [] {
      assert [] + [op] == [op] && [op][1..] == [];
    } else {
      assert (ops + [op])[1..] == ops[1..] + [op];
      UpdatesSnoc(Update(m, ops[0]), ops[1..], op);
    }
  }

  /** After a run a page is mapped to frame and permissions of the last `map` of it, not mapped if it was
      unmapped last, and as before if no operation was on it. */
  lemma {:induction false} LastOpDecides(m: map<nat, nat>, ops: seq<PtOp>, vpn: nat)
    requires forall i | 0 <= i < |ops| && ops[i].MapPage? :: ops[i].ppn < PPN_COUNT
    ensures
      var m', last := Updates(m, ops), LastOp(ops, vpn);
      && (last.None? ==> (vpn in m' <==> vpn in m) && (vpn in m ==> m'[vpn] == m[vpn]))
      && (last.Some? && last.value.UnmapPage? ==> vpn !in m')
      && (last.Some? && last.value.MapPage? ==> vpn in m' && Grants(m'[vpn], last.value.ppn, last.value.flags))
  {
    hide Grants, Pte, WithV;
    if ops != [] {
      var init, op := ops[..|ops| - 1], ops[|ops| - 1];
      assert ops == init + [op];
      UpdatesSnoc(m, init, op);
      LastOpDecides(m, init, vpn);
      if op.MapPage? {
        EntryGrants(op.ppn, op.flags);
      }
    }
  }

  /** Refinement over every run of `map` and `unmap` that does not exhaust memory. */
  method Run(pt: PageTable, pm: PhysicalMemory, ops: seq<PtOp>) returns (ok: bool)
    requires pt.Valid(pm) && LegalRun(Abs(pm.mem, pt.root), ops)
    modifies pt, pm
    ensures ok ==> pt.Valid(pm) && Abs(pm.mem, pt.root) == Updates(old(Abs(pm.mem, pt.root)), ops)
    ensures old(pm.Free()) >= 2 * |ops| ==> ok
  {
    hide PageTable.Valid, Mapping, Abs, PhysicalMemory.Free, PhysicalMemory.Live, OnlyTables, Pte, WithV;
    ok := true;
    assert ops[0..] == ops;
    for i := 0 to |ops|
      invariant pt.Valid(pm) && LegalRun(Abs(pm.mem, pt.root), ops[i..])
      invariant Updates(old(Abs(pm.mem, pt.root)), ops) == Updates(Abs(pm.mem, pt.root), ops[i..])
      invariant pm.Free() + 2 * i >= old(pm.Free())
    {
      assert ops[i..][0] == ops[i] && ops[i..][1..] == ops[i + 1..];
      ghost var mem, vpn := pm.mem, ops[i].vpn;
      AbsMember(mem, pt.root, vpn);
      match ops[i] {
        case MapPage(v, ppn, flags) =>
          ok := pt.Map(pm, v, ppn, flags);
          if !ok {
            return;
          }
          AbsUpdate(mem, pm.mem, pt.root, v, Some(Pte(ppn, WithV(flags))));
        case UnmapPage(v) =>
          ghost var free := pm.Free();
          pt.Unmap(pm, v);
          AbsUpdate(mem, pm.mem, pt.root, v, None);
      }
    }
    assert ops[|ops|..] == [];
  }
}
