/** The volume: regions of the disk, what every inode owns, and the invariant that ties bitmaps,
    inode slots, index trees and file contents together. */
module Volume {
  import opened Bytes
  import opened BitmapAlloc
  import opened Layout
  import opened FileData
  import opened Codec

  /** Sizes of the five regions, in blocks: superblock, inode bitmap, inode area, data bitmap, data area. */
  datatype Geo = Geo(total: nat, ib: nat, ia: nat, db: nat, da: nat) {
    function InodeStart(): nat { 1 + ib }
    function DataBitmapStart(): nat { 1 + ib + ia }
    function DataStart(): nat { 1 + ib + ia + db }
    predicate InData(x: nat) { DataStart() <= x < DataStart() + da }
  }

  ghost predicate GeoOk(g: Geo) {
    && 1 <= g.ib && g.ia == 1024 * g.ib && g.da <= 4096 * g.db
    && g.total == g.DataStart() + g.da && g.total < 0x1_0000_0000
  }

  /** A file or directory: the blocks it owns in allocation order, and its contents. */
  datatype File = File(ids: seq<u32>, data: seq<byte>, isDir: bool)

  /** `get_disk_inode_pos`: inode block and slot. */
  function SlotBlock(g: Geo, id: nat): nat { g.InodeStart() + id / 4 }

  /** Distinct inode numbers have distinct, non-overlapping slots inside the inode area. */
  lemma SlotsDisjoint(g: Geo, i: nat, j: nat)
    requires GeoOk(g) && i < 4096 * g.ib && j < 4096 * g.ib
    ensures g.InodeStart() <= SlotBlock(g, i) < g.DataBitmapStart()
    ensures i != j ==>
        SlotBlock(g, i) != SlotBlock(g, j) || 128 * (i % 4) + 128 <= 128 * (j % 4) ||
        128 * (j % 4) + 128 <= 128 * (i % 4)
  {
  }

  ghost predicate InodeBits(d: seq<Block>, g: Geo, files: map<nat, File>) {
    forall i | 0 <= i < 4096 * g.ib :: BitAt(d, 1, i) <==> i in files
  }

  ghost predicate DataBits(d: seq<Block>, g: Geo, used: set<nat>) {
    forall j | 0 <= j < 4096 * g.db :: BitAt(d, g.DataBitmapStart(), j) <==> g.DataStart() + j in used
  }

  ghost predicate SuperOk(d: seq<Block>, g: Geo)
    requires 0 < |d|
  {
    SuperAt(d[0]) == SuperBlock(EFS_MAGIC, g.total % 0x1_0000_0000, g.ib % 0x1_0000_0000, g.ia % 0x1_0000_0000,
                                g.db % 0x1_0000_0000, g.da % 0x1_0000_0000)
  }

  ghost predicate FileOk(d: seq<Block>, g: Geo, id: nat, f: File) {
    && SlotBlock(g, id) < |d|
    && var r := InodeAt(d[SlotBlock(g, id)], id % 4);
    && r.size == |f.data| && r.isDir == f.isDir
    && |f.ids| == TotalBlocks(|f.data|) && NoDup(f.ids)
    && TreeOk(d, r, DataBlocks(|f.data|), f.ids) && FileBytes(d, DataBlocks(|f.data|), f.ids, f.data)
    && UnusedZero(d, r, DataBlocks(|f.data|), f.ids)
  }

  ghost predicate FilesOk(d: seq<Block>, g: Geo, files: map<nat, File>) {
    forall id | id in files :: id < 4096 * g.ib && FileOk(d, g, id, files[id])
  }

  /** `owner` maps every used data block to the one inode whose list contains it. */
  ghost predicate OwnerOk(g: Geo, files: map<nat, File>, owner: map<nat, nat>) {
    && (forall id, x: u32 | id in files && x in files[id].ids :: x in owner && owner[x] == id)
    && (forall x | x in owner :: g.InData(x) && owner[x] in files && x in files[owner[x]].ids)
  }

  ghost predicate FreeZero(d: seq<Block>, g: Geo, used: set<nat>)
    requires g.total == g.DataStart() + g.da <= |d|
  {
    forall x: nat | g.InData(x) && x !in used :: d[x] == ZeroBlock()
  }

  /** The invariant of the volume. */
  ghost predicate VolumeOk(d: seq<Block>, g: Geo, files: map<nat, File>, owner: map<nat, nat>) {
    && GeoOk(g) && g.total <= |d| && SuperOk(d, g)
    && InodeBits(d, g, files) && DataBits(d, g, owner.Keys)
    && FilesOk(d, g, files) && OwnerOk(g, files, owner) && FreeZero(d, g, owner.Keys)
  }

  // Consequences: no block is shared, nothing leaks, and the used blocks are counted exactly.

  /** A block belongs to at most one place of at most one inode. */
  lemma NoSharing(d: seq<Block>, g: Geo, files: map<nat, File>, owner: map<nat, nat>, id: nat, i: nat, id': nat,
            i': nat)
    requires VolumeOk(d, g, files, owner)
    requires id in files && id' in files && i < |files[id].ids| && i' < |files[id'].ids|
    requires files[id].ids[i] == files[id'].ids[i']
    ensures id == id' && i == i'
  {
    hide BitAt, TreeOk, FileBytes, UnusedZero, InodeAt;
    assert FileOk(d, g, id, files[id]);
    var x := files[id].ids[i];
    assert x in files[id].ids && x in files[id'].ids;
    assert owner[x] == id && owner[x] == id';
  }

  /** The set bits of the data bitmap are exactly the blocks of the inodes. */
  lemma NoLeak(d: seq<Block>, g: Geo, files: map<nat, File>, owner: map<nat, nat>, j: nat)
    requires VolumeOk(d, g, files, owner) && j < 4096 * g.db
    ensures BitAt(d, g.DataBitmapStart(), j) <==> exists id | id in files :: (g.DataStart() + j) in files[id].ids
  {
    hide BitAt, FilesOk;
    var x := g.DataStart() + j;
    if x in owner {
      assert x in files[owner[x]].ids;
    }
  }

  /** Block `x` is reached from an inode with `n` data blocks, as a data block or as an index block. */
  ghost predicate Reached(d: seq<Block>, r: InodeRec, n: nat, x: nat)
    requires |r.direct| == 28
  {
    || (exists i: nat | i < n && i < INDIRECT2_BOUND :: BlockIdOf(d, r, i) == x)
    || (n > 28 && x == r.ind1) || (n > 156 && x == r.ind2)
    || (n > 156 && r.ind2 < |d| && exists a: nat | a < SubCount(n) && a < 128 :: Word(d[r.ind2], a) == x)
  }

  /** The list of an inode holds exactly what is reached from it. */
  lemma ListIsReached(d: seq<Block>, r: InodeRec, n: nat, ids: seq<u32>, x: nat)
    requires TreeOk(d, r, n, ids) && |ids| == TotalOf(n)
    ensures x in ids <==> Reached(d, r, n, x)
  {
    hide Word, BlockIdOf;
    if x in ids {
      var p :| 0 <= p < |ids| && ids[p] == x;
      var i := PosCases(p, n);
      if IsIndexPos(p) {
        SubIndexPos(p, n);
        if p >= 158 {
          assert SubOk(d, n, ids, (p - 158) / 129);
        }
      } else {
        BlockIdIsDataPos(d, r, n, ids, i);
      }
    }
    if Reached(d, r, n, x) {
      if i: nat :| i < n && i < INDIRECT2_BOUND && BlockIdOf(d, r, i) == x {
        BlockIdIsDataPos(d, r, n, ids, i);
      } else if n > 28 && x == r.ind1 {
        assert ids[28] == x;
      } else if n > 156 && x == r.ind2 {
        assert ids[157] == x;
      } else {
        var a: nat :| a < SubCount(n) && a < 128 && Word(d[r.ind2], a) == x;
        assert SubOk(d, n, ids, a) && ids[SubPos(a)] == x;
      }
    }
  }

  /** A bit of the data bitmap is set exactly when its block is reached from an allocated inode. */
  lemma BitsAreReached(d: seq<Block>, g: Geo, files: map<nat, File>, owner: map<nat, nat>, j: nat)
    requires VolumeOk(d, g, files, owner) && j < 4096 * g.db
    ensures forall id | id in files :: SlotBlock(g, id) < |d|
    ensures BitAt(d, g.DataBitmapStart(), j) <==> exists id | id in files ::
              Reached(d, InodeAt(d[SlotBlock(g, id)], id % 4), DataBlocks(|files[id].data|), g.DataStart() + j)
  {
    hide BitAt, InodeAt, TreeOk, FileBytes, UnusedZero, NoDup, Reached, InodeBits, DataBits, OwnerOk, FreeZero,
        SuperOk, GeoOk;
    NoLeak(d, g, files, owner, j);
    var x := g.DataStart() + j;
    forall id | id in files ensures SlotBlock(g, id) < |d| {
      assert FileOk(d, g, id, files[id]);
    }
    forall id | id in files
      ensures x in files[id].ids <==> Reached(d, InodeAt(d[SlotBlock(g, id)], id % 4), DataBlocks(|files[id].data|), x)
    {
      assert FileOk(d, g, id, files[id]);
      ListIsReached(d, InodeAt(d[SlotBlock(g, id)], id % 4), DataBlocks(|files[id].data|), files[id].ids, x);
    }
  }

  /** Sum of `total_blocks(size)` over a set of inodes. */
  ghost function SumTotals(files: map<nat, File>, ids: set<nat>): nat
    requires ids <= files.Keys
    decreases |ids|
  {
    if ids == {} then 0 else
      var id :| id in ids;
      TotalBlocks(|files[id].data|) + SumTotals(files, ids - {id})
  }

  /** The blocks of a list, as a set. */
  ghost function Blocks(s: seq<u32>): set<nat> {
    set x: nat | x in s
  }

  lemma {:induction false} DistinctSize(s: seq<u32>)
    requires NoDup(s)
    ensures |Blocks(s)| == |s|
    decreases |s|
  {
    if |s| > 0 {
      var init, last := s[..|s| - 1], s[|s| - 1];
      DistinctSize(init);
      assert last !in Blocks(init);
      assert Blocks(s) == Blocks(init) + {last};
    }
  }

  ghost function OwnedBy(owner: map<nat, nat>, ids: set<nat>): set<nat> {
    set x | x in owner && owner[x] in ids
  }

  lemma OwnedSplit(g: Geo, files: map<nat, File>, owner: map<nat, nat>, ids: set<nat>, id: nat)
    requires OwnerOk(g, files, owner) && ids <= files.Keys && id in ids
    ensures OwnedBy(owner, ids) == OwnedBy(owner, ids - {id}) + Blocks(files[id].ids)
    ensures OwnedBy(owner, ids - {id}) !! Blocks(files[id].ids)
  {
  }

  lemma {:induction false} CountOwned(d: seq<Block>, g: Geo, files: map<nat, File>, owner: map<nat, nat>, ids: set<nat>)
    requires FilesOk(d, g, files) && OwnerOk(g, files, owner) && ids <= files.Keys
    ensures |OwnedBy(owner, ids)| == SumTotals(files, ids)
    decreases |ids|
  {
    hide TreeOk, FileBytes, UnusedZero, InodeAt, OwnerOk, OwnedBy, NoDup, TotalBlocks, Blocks;
    if ids == {} {
      assert OwnedBy(owner, ids) == {} by { NothingOwned(owner); }
    } else {
      var id :| id in ids && SumTotals(files, ids) == TotalBlocks(|files[id].data|) + SumTotals(files, ids - {id});
      CountOwned(d, g, files, owner, ids - {id});
      assert FileOk(d, g, id, files[id]);
      DistinctSize(files[id].ids);
      OwnedSplit(g, files, owner, ids, id);
    }
  }

  lemma AllOwned(g: Geo, files: map<nat, File>, owner: map<nat, nat>)
    requires OwnerOk(g, files, owner)
    ensures OwnedBy(owner, files.Keys) == owner.Keys
  {
  }

  lemma NothingOwned(owner: map<nat, nat>)
    ensures OwnedBy(owner, {}) == {}
  {
  }

  /** The set bits of the data bitmap. */
  ghost function SetBits(d: seq<Block>, g: Geo): set<nat> {
    set j | 0 <= j < 4096 * g.db && BitAt(d, g.DataBitmapStart(), j)
  }

  lemma {:induction false} ShiftedSize(s: set<nat>, t: set<nat>, c: nat)
    requires forall j: nat :: j in s <==> c + j in t
    requires forall x | x in t :: x >= c
    ensures |s| == |t|
    decreases |s|
  {
    if s == {} {
      forall x | x in t ensures x - c in s {
        assert c + (x - c) == x;
      }
      assert t == {};
    } else {
      var j :| j in s;
      ShiftedSize(s - {j}, t - {c + j}, c);
    }
  }

  /** The number of set bits is the sum of `total_blocks(size)` over all inodes. */
  lemma UsedIsSumOfTotals(d: seq<Block>, g: Geo, files: map<nat, File>, owner: map<nat, nat>)
    requires VolumeOk(d, g, files, owner)
    ensures |SetBits(d, g)| == |owner.Keys| == SumTotals(files, files.Keys)
  {
    hide FilesOk, OwnerOk, InodeBits, DataBits, FreeZero, SuperOk, GeoOk, SumTotals, OwnedBy, SetBits;
    CountOwned(d, g, files, owner, files.Keys);
    AllOwned(g, files, owner);
    CountBits(d, g, files, owner);
  }

  lemma CountBits(d: seq<Block>, g: Geo, files: map<nat, File>, owner: map<nat, nat>)
    requires GeoOk(g) && DataBits(d, g, owner.Keys) && OwnerOk(g, files, owner)
    ensures |SetBits(d, g)| == |owner.Keys|
  {
    hide BitAt;
    forall j: nat ensures j in SetBits(d, g) <==> g.DataStart() + j in owner.Keys {
      if g.DataStart() + j in owner {
        assert g.InData(g.DataStart() + j);
      }
    }
    ShiftedSize(SetBits(d, g), owner.Keys, g.DataStart());
  }

  // The bytes on the disk determine the volume.

  lemma SubIndexPos(p: nat, n: nat)
    requires p < TotalOf(n) && IsIndexPos(p)
    ensures p == 28 ==> n > 28
    ensures p >= 157 ==> n > 156
    ensures p >= 158 ==> (p - 158) / 129 < SubCount(n) && p == SubPos((p - 158) / 129)
  {
  }

  lemma TreeDetermines(d: seq<Block>, r: InodeRec, n: nat, a: seq<u32>, b: seq<u32>)
    requires TreeOk(d, r, n, a) && TreeOk(d, r, n, b) && |a| == |b| == TotalOf(n)
    ensures a == b
  {
    hide Word, TotalOf, IsIndexPos, DataPos;
    forall p | 0 <= p < |a| ensures a[p] == b[p] {
      TreeDeterminesAt(d, r, n, a, b, p);
    }
  }

  /** Data and index blocks are all there is: each is found from the inode. */
  lemma TreeDeterminesAt(d: seq<Block>, r: InodeRec, n: nat, a: seq<u32>, b: seq<u32>, p: nat)
    requires TreeOk(d, r, n, a) && TreeOk(d, r, n, b) && |a| == |b| == TotalOf(n) && p < |a|
    ensures a[p] == b[p]
  {
    hide Word, DataPos;
    var i := PosCases(p, n);
    if IsIndexPos(p) {
      SubIndexPos(p, n);
      if p >= 158 {
        var k := (p - 158) / 129;
        assert SubOk(d, n, a, k) && SubOk(d, n, b, k);
      }
    } else {
      BlockIdIsDataPos(d, r, n, a, i);
      BlockIdIsDataPos(d, r, n, b, i);
    }
  }

  lemma BytesDetermine(d: seq<Block>, n: nat, ids: seq<u32>, x: seq<byte>, y: seq<byte>)
    requires FileBytes(d, n, ids, x) && FileBytes(d, n, ids, y) && |x| == |y|
    ensures x == y
  {
    forall k | 0 <= k < |x| ensures x[k] == y[k] {
      assert ByteAt(d, n, ids, k) == x[k];
    }
  }

  lemma FileDetermined(d: seq<Block>, g: Geo, id: nat, f: File, f': File)
    requires FileOk(d, g, id, f) && FileOk(d, g, id, f')
    ensures f == f'
  {
    hide InodeAt, TreeOk, FileBytes, UnusedZero, NoDup;
    var r, n := InodeAt(d[SlotBlock(g, id)], id % 4), DataBlocks(|f.data|);
    TreeDetermines(d, r, n, f.ids, f'.ids);
    BytesDetermine(d, n, f.ids, f.data, f'.data);
  }

  /** A disk holds at most one volume: geometry, files and owners are read off its blocks. */
  lemma VolumeDetermined(d: seq<Block>, g: Geo, files: map<nat, File>, owner: map<nat, nat>,
                         g': Geo, files': map<nat, File>, owner': map<nat, nat>)
    requires VolumeOk(d, g, files, owner) && VolumeOk(d, g', files', owner')
    ensures g == g' && files == files' && owner == owner'
  {
    hide InodeBits, DataBits, FilesOk, OwnerOk, FreeZero, SuperOk;
    GeoDetermined(d, g, g');
    FilesDetermined(d, g, files, files');
    OwnerDetermined(g, files, owner, owner');
  }

  lemma GeoDetermined(d: seq<Block>, g: Geo, g': Geo)
    requires 0 < |d| && GeoOk(g) && GeoOk(g') && SuperOk(d, g) && SuperOk(d, g')
    ensures g == g'
  {
    hide SuperOk, SuperAt;
    SuperFields(d, g);
    SuperFields(d, g');
  }

  lemma SuperFields(d: seq<Block>, g: Geo)
    requires 0 < |d| && GeoOk(g) && SuperOk(d, g)
    ensures var sb := SuperAt(d[0]);
            sb.total == g.total && sb.inodeBitmap == g.ib && sb.inodeArea == g.ia && sb.dataBitmap == g.db &&
              sb.dataArea == g.da
  {
    hide SuperAt;
  }

  lemma FilesDetermined(d: seq<Block>, g: Geo, files: map<nat, File>, files': map<nat, File>)
    requires InodeBits(d, g, files) && InodeBits(d, g, files') && FilesOk(d, g, files) && FilesOk(d, g, files')
    ensures files == files'
  {
    hide BitAt, FileOk;
    forall id: nat ensures id in files <==> id in files' {
      assert id < 4096 * g.ib ==> (BitAt(d, 1, id) <==> id in files);
    }
    forall id | id in files ensures files[id] == files'[id] {
      FileDetermined(d, g, id, files[id], files'[id]);
    }
  }

  lemma OwnerDetermined(g: Geo, files: map<nat, File>, owner: map<nat, nat>, owner': map<nat, nat>)
    requires OwnerOk(g, files, owner) && OwnerOk(g, files, owner')
    ensures owner == owner'
  {
    forall x ensures x in owner <==> x in owner' {
      if x in owner {
        assert x in files[owner[x]].ids;
      }
      if x in owner' {
        assert x in files[owner'[x]].ids;
      }
    }
    forall x | x in owner ensures owner[x] == owner'[x] {
      assert x in files[owner[x]].ids;
    }
  }

  // Frames.

  lemma FileFrame(d: seq<Block>, d': seq<Block>, g: Geo, id: nat, f: File)
    requires FileOk(d, g, id, f) && |d'| == |d|
    requires InodeAt(d'[SlotBlock(g, id)], id % 4) == InodeAt(d[SlotBlock(g, id)], id % 4)
    requires forall x | x in f.ids :: x < |d| && d'[x] == d[x]
    ensures FileOk(d', g, id, f)
  {
    hide InodeAt, TreeOk, UnusedZero;
    var n := DataBlocks(|f.data|);
    TreeFrame(d, d', InodeAt(d[SlotBlock(g, id)], id % 4), n, f.ids, f.ids);
    UnusedZeroFrame(d, d', InodeAt(d[SlotBlock(g, id)], id % 4), n, f.ids);
    forall k | 0 <= k < 512 * n ensures ByteAt(d', n, f.ids, k) == if k < |f.data| then f.data[k] else 0 {
      assert ByteAt(d, n, f.ids, k) == if k < |f.data| then f.data[k] else 0;
      DataPosFacts(k / 512, n);
    }
  }

  /** Bits depend on the blocks of their own bitmap only. */
  lemma BitsFrame(d: seq<Block>, d': seq<Block>, start: nat, blocks: nat)
    requires start + blocks <= |d| && |d'| == |d|
    requires forall x | start <= x < start + blocks :: d'[x] == d[x]
    ensures forall i | 0 <= i < 4096 * blocks :: BitAt(d', start, i) == BitAt(d, start, i)
  {
    hide BlockBit;
  }

  ghost predicate SameOutside(d: seq<Block>, d': seq<Block>, lo: nat, hi: nat) {
    |d'| == |d| && forall x | 0 <= x < |d| && !(lo <= x < hi) :: d'[x] == d[x]
  }

  /** What a file operation on inode `id` leaves alone: the superblock, the inode bitmap, the other
      inode slots and the data blocks outside `touched`. */
  ghost predicate Untouched(d: seq<Block>, d': seq<Block>, g: Geo, id: nat, touched: seq<u32>)
    requires GeoOk(g) && g.total <= |d|
  {
    && |d'| == |d|
    && (forall x | 0 <= x < 1 + g.ib :: d'[x] == d[x])
    && (forall i | 0 <= i < 4096 * g.ib && i != id ::
          InodeAt(d'[SlotBlock(g, i)], i % 4) == InodeAt(d[SlotBlock(g, i)], i % 4))
    && (forall x: u32 | g.InData(x) && x !in touched :: d'[x] == d[x])
  }

  ghost function Claim(owner: map<nat, nat>, more: seq<u32>, id: nat): map<nat, nat> {
    owner + map x | x in Blocks(more) :: id
  }

  lemma OwnerWrite(g: Geo, files: map<nat, File>, owner: map<nat, nat>, id: nat, f: File, more: seq<u32>)
    requires OwnerOk(g, files, owner) && id in files
    requires f.ids == files[id].ids + more
    requires forall x | x in Blocks(more) :: g.InData(x) && x !in owner
    ensures OwnerOk(g, files[id := f], Claim(owner, more, id))
    ensures Claim(owner, more, id).Keys == owner.Keys + Blocks(more)
  {
    var files', owner' := files[id := f], Claim(owner, more, id);
    forall j, x: u32 | j in files' && x in files'[j].ids ensures x in owner' && owner'[x] == j {
      if j == id {
        assert x in files[id].ids || x in Blocks(more);
      } else {
        assert x in owner && x !in Blocks(more);
      }
    }
    forall x | x in owner' ensures g.InData(x) && owner'[x] in files' && x in files'[owner'[x]].ids {
      if x in Blocks(more) {
        assert x in more;
      } else {
        assert x in files[owner[x]].ids;
      }
    }
  }

  /** A write that extended `id` by `more` re-establishes the invariant. */
  lemma CommitWrite(d: seq<Block>, d': seq<Block>, g: Geo, files: map<nat, File>, owner: map<nat, nat>,
                    id: nat, f: File, more: seq<u32>)
    requires VolumeOk(d, g, files, owner) && id in files
    requires f.ids == files[id].ids + more
    requires forall x | x in Blocks(more) :: g.InData(x) && x !in owner
    requires Untouched(d, d', g, id, f.ids)
    requires DataBits(d', g, owner.Keys + Blocks(more))
    requires FileOk(d', g, id, f)
    ensures VolumeOk(d', g, files[id := f], Claim(owner, more, id))
  {
    hide BitAt, InodeAt, FileOk, ZeroBlock, SuperAt, DataBits, Claim;
    var files', owner' := files[id := f], Claim(owner, more, id);
    OwnerWrite(g, files, owner, id, f, more);
    BitsFrame(d, d', 1, g.ib);
    assert FilesOk(d', g, files') by {
      forall x: u32 | x in f.ids && x in owner ensures owner[x] == id {
        assert x in files[id].ids || x in Blocks(more);
      }
      forall j | j in files' && j != id ensures j < 4096 * g.ib && FileOk(d', g, j, files'[j]) {
        OtherFile(d, d', g, files, owner, id, f.ids, j);
      }
    }
    assert FreeZero(d', g, owner'.Keys) by {
      forall x: nat | g.InData(x) && x !in owner'.Keys ensures d'[x] == ZeroBlock() {
        assert x !in files[id].ids && x !in Blocks(more);
        assert x !in f.ids;
      }
    }
  }

  /** Another inode's file is untouched when the touched blocks are free or belong to `id`. */
  lemma OtherFile(d: seq<Block>, d': seq<Block>, g: Geo, files: map<nat, File>, owner: map<nat, nat>,
                  id: nat, touched: seq<u32>, j: nat)
    requires VolumeOk(d, g, files, owner) && Untouched(d, d', g, id, touched)
    requires forall x: u32 | x in touched && x in owner :: owner[x] == id
    requires j in files && j != id
    ensures j < 4096 * g.ib && FileOk(d', g, j, files[j])
  {
    hide BitAt, InodeAt, FileOk, ZeroBlock, SuperAt;
    forall x | x in files[j].ids ensures x < |d| && d'[x] == d[x] {
      assert owner[x] == j;
    }
    FileFrame(d, d', g, j, files[j]);
  }

  lemma OwnerClear(g: Geo, files: map<nat, File>, owner: map<nat, nat>, id: nat, f: File)
    requires OwnerOk(g, files, owner) && id in files && f.ids == []
    ensures OwnerOk(g, files[id := f], owner - Blocks(files[id].ids))
  {
    var files', owner' := files[id := f], owner - Blocks(files[id].ids);
    forall j, x: u32 | j in files' && x in files'[j].ids ensures x in owner' && owner'[x] == j {
      assert x in owner && owner[x] == j && x in files[j].ids;
      assert x !in Blocks(files[id].ids);
    }
    forall x | x in owner' ensures g.InData(x) && owner'[x] in files' && x in files'[owner'[x]].ids {
      assert x in files[owner[x]].ids && owner[x] != id;
    }
  }

  /** Clearing `id` gives its blocks back. */
  lemma CommitClear(d: seq<Block>, d': seq<Block>, g: Geo, files: map<nat, File>, owner: map<nat, nat>, id: nat)
    requires VolumeOk(d, g, files, owner) && id in files
    requires Untouched(d, d', g, id, files[id].ids)
    requires DataBits(d', g, owner.Keys - Blocks(files[id].ids))
    requires forall x | x in Blocks(files[id].ids) :: x < |d'| && d'[x] == ZeroBlock()
    requires FileOk(d', g, id, File([], [], files[id].isDir))
    ensures VolumeOk(d', g, files[id := File([], [], files[id].isDir)], owner - Blocks(files[id].ids))
  {
    hide BitAt, InodeAt, FileOk, ZeroBlock, SuperAt, DataBits;
    var files', owner' := files[id := File([], [], files[id].isDir)], owner - Blocks(files[id].ids);
    assert owner'.Keys == owner.Keys - Blocks(files[id].ids);
    OwnerClear(g, files, owner, id, File([], [], files[id].isDir));
    BitsFrame(d, d', 1, g.ib);
    assert FilesOk(d', g, files') by {
      forall j | j in files' && j != id ensures j < 4096 * g.ib && FileOk(d', g, j, files'[j]) {
        OtherFile(d, d', g, files, owner, id, files[id].ids, j);
      }
    }
  }

  /** A freshly allocated and initialised inode is an empty file. */
  lemma CommitInode(d: seq<Block>, d': seq<Block>, g: Geo, files: map<nat, File>, owner: map<nat, nat>, id: nat,
            isDir: bool)
    requires VolumeOk(d, g, files, owner) && id < 4096 * g.ib && id !in files
    requires |d'| == |d| && d'[0] == d[0]
    requires forall x | g.DataBitmapStart() <= x < g.total :: d'[x] == d[x]
    requires forall i | 0 <= i < 4096 * g.ib && i != id ::
               InodeAt(d'[SlotBlock(g, i)], i % 4) == InodeAt(d[SlotBlock(g, i)], i % 4)
    requires forall i | 0 <= i < 4096 * g.ib :: BitAt(d', 1, i) <==> i == id || i in files
    requires FileOk(d', g, id, File([], [], isDir))
    ensures VolumeOk(d', g, files[id := File([], [], isDir)], owner)
  {
    hide BitAt, InodeAt, FileOk, ZeroBlock, SuperAt;
    BitsFrame(d, d', g.DataBitmapStart(), g.db);
    var files' := files[id := File([], [], isDir)];
    assert FilesOk(d', g, files') by {
      forall j | j in files' && j != id ensures j < 4096 * g.ib && FileOk(d', g, j, files'[j]) {
        forall x | x in files[j].ids ensures x < |d| && d'[x] == d[x] {
          assert owner[x] == j;
        }
        FileFrame(d, d', g, j, files[j]);
      }
    }
  }

  /** Storing an inode record changes its own slot and completes its file. */
  lemma StoreInode(d: seq<Block>, d': seq<Block>, g: Geo, id: nat, r: InodeRec, f: File)
    requires GeoOk(g) && g.total <= |d| && id < 4096 * g.ib && |r.direct| == 28
    requires d' == d[SlotBlock(g, id) := PutInode(d[SlotBlock(g, id)], id % 4, r)]
    requires r.size == |f.data| && r.isDir == f.isDir && |f.ids| == TotalBlocks(|f.data|) && NoDup(f.ids)
    requires TreeOk(d, r, DataBlocks(|f.data|), f.ids) && FileBytes(d, DataBlocks(|f.data|), f.ids, f.data)
    requires UnusedZero(d, r, DataBlocks(|f.data|), f.ids) && InRange(f.ids, g.DataStart(), g.total)
    ensures FileOk(d', g, id, f)
    ensures forall i | 0 <= i < 4096 * g.ib && i != id ::
              InodeAt(d'[SlotBlock(g, i)], i % 4) == InodeAt(d[SlotBlock(g, i)], i % 4)
  {
    hide InodeAt, PutInode, TreeOk, UnusedZero;
    var k, n := SlotBlock(g, id), DataBlocks(|f.data|);
    SlotsDisjoint(g, id, id);
    InodeRoundTrip(d[k], id % 4, r);
    TreeFrame(d, d', r, n, f.ids, f.ids);
    UnusedZeroFrame(d, d', r, n, f.ids);
    forall j | 0 <= j < 512 * n ensures ByteAt(d', n, f.ids, j) == if j < |f.data| then f.data[j] else 0 {
      assert ByteAt(d, n, f.ids, j) == if j < |f.data| then f.data[j] else 0;
      DataPosFacts(j / 512, n);
    }
    forall i | 0 <= i < 4096 * g.ib && i != id
      ensures InodeAt(d'[SlotBlock(g, i)], i % 4) == InodeAt(d[SlotBlock(g, i)], i % 4)
    {
      if SlotBlock(g, i) == k {
        InodeSlotsDisjoint(d[k], id % 4, r, i % 4);
      }
    }
  }

  /** `r` consecutive members need a set of size `r`. */
  lemma {:induction false} IntervalSize(lo: nat, r: nat, used: set<nat>)
    requires forall x | lo <= x < lo + r :: x in used
    ensures r <= |used|
    decreases r
  {
    if r > 0 {
      IntervalSize(lo, r - 1, used - {lo + r - 1});
    }
  }
}
