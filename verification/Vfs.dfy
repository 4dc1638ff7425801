/** File operations through an in-memory inode handle (easy-fs/src/vfs.rs). */
module Vfs {
  import opened Basics
  import opened Bytes
  import opened BlockCache
  import opened BitmapAlloc
  import opened Layout
  import opened DiskInodes
  import opened FileData
  import opened Codec
  import opened Volume
  import opened Efs

  /** The handle: where the disk inode lies. */
  datatype Inode = Inode(blockId: nat, blockOffset: nat)

  ghost function HandleOf(g: Geo, id: nat): Inode {
    Inode(SlotBlock(g, id), 128 * (id % 4))
  }

  /** Blocks missing when inode `f` grows to `size` bytes. */
  ghost function Missing(f: File, size: nat): nat {
    if size <= |f.data| then 0 else TotalBlocks(size) - TotalBlocks(|f.data|)
  }

  /** Growing never needs fewer blocks. */
  lemma TotalMonotone(a: nat, b: nat)
    requires a <= b
    ensures TotalBlocks(a) <= TotalBlocks(b)
  {
  }

  /** The disk as it is while inode `id` is being extended by the blocks `more`. */
  ghost predicate Growing(d: seq<Block>, d': seq<Block>, g: Geo, owner: map<nat, nat>, ids: seq<u32>, more: seq<u32>)
    requires GeoOk(g) && g.total <= |d|
  {
    && |d'| == |d|
    && (forall x | 0 <= x < g.DataBitmapStart() :: d'[x] == d[x])
    && (forall x: u32 | g.InData(x) && x !in ids + more :: d'[x] == d[x])
    && (forall x | x in Blocks(more) :: g.InData(x) && x !in owner)
    && NoDup(ids + more)
    && DataBits(d', g, owner.Keys + Blocks(more))
  }

  /** Appending a fresh block keeps the list free of duplicates. */
  lemma Append(ids: seq<u32>, more: seq<u32>, x: u32)
    requires NoDup(ids + more) && x !in ids && x !in more
    ensures NoDup(ids + (more + [x])) && Blocks(more + [x]) == Blocks(more) + {x as nat}
  {
    var s := ids + (more + [x]);
    forall i, j | 0 <= i < j < |s| ensures s[i] != s[j] {
      if j == |s| - 1 {
        assert s[i] in ids || s[i] in more;
      } else {
        assert s[i] == (ids + more)[i] && s[j] == (ids + more)[j];
      }
    }
  }

  /** Claiming one more block while growing. */
  lemma GrowingStep(d: seq<Block>, d1: seq<Block>, d2: seq<Block>, g: Geo, owner: map<nat, nat>, ids: seq<u32>,
                    more: seq<u32>, x: u32)
    requires GeoOk(g) && g.total <= |d| && Growing(d, d1, g, owner, ids, more)
    requires forall y | y in ids :: y in owner
    requires g.InData(x) && x !in owner.Keys + Blocks(more)
    requires DataBits(d2, g, (owner.Keys + Blocks(more)) + {x as nat})
    requires SameOutside(d1, d2, g.DataBitmapStart(), g.DataStart())
    ensures Growing(d, d2, g, owner, ids, more + [x])
  {
    hide BitAt, NoDup;
    assert x !in more && x !in ids;
    Append(ids, more, x);
    assert (owner.Keys + Blocks(more)) + {x as nat} == owner.Keys + Blocks(more + [x]);
    forall y: u32 | g.InData(y) && y !in ids + (more + [x]) ensures d2[y] == d[y] {
      assert y !in ids + more;
    }
  }

  lemma GrowingUsed(d: seq<Block>, d': seq<Block>, g: Geo, owner: map<nat, nat>, ids: seq<u32>, more: seq<u32>)
    requires GeoOk(g) && g.total <= |d| && Growing(d, d', g, owner, ids, more)
    ensures |owner.Keys + Blocks(more)| == |owner.Keys| + |more|
    ensures DataBits(d', g, owner.Keys + Blocks(more)) && |d'| == |d| && NoDup(ids + more)
    ensures forall x | x in Blocks(more) :: g.InData(x) && x !in owner
  {
    hide BitAt;
    var all := ids + more;
    forall i, j | 0 <= i < j < |more| ensures more[i] != more[j] {
      assert all[|ids| + i] != all[|ids| + j];
    }
    DistinctSize(more);
    assert owner.Keys !! Blocks(more);
  }

  /** The allocation loop of `Inode::increase_size`. */
  method AllocBlocks(fs: EasyFileSystem, count: nat, ghost id: nat) returns (v: seq<u32>)
    requires fs.Fields() && fs.dev.Valid() && |fs.dev.pins| <= 15
    requires VolumeOk(fs.dev.blocks, fs.geo, fs.files, fs.owner) && id in fs.files
    requires fs.geo.total <= |fs.dev.blocks|
    requires |fs.owner.Keys| + count <= fs.geo.da
    modifies fs.dev
    ensures fs.dev.Valid() && fs.dev.pins == old(fs.dev.pins) && |v| == count
    ensures Growing(old(fs.dev.blocks), fs.dev.blocks, fs.geo, fs.owner, fs.files[id].ids, v)
    ensures |fs.dev.blocks| == |old(fs.dev.blocks)|
    ensures forall x: nat | fs.geo.InData(x) :: fs.dev.blocks[x] == old(fs.dev.blocks)[x]
  {
    hide BlockCacheManager.Valid, VolumeOk, Growing, DataBits, NoDup, FileOk, Blocks, InRange;
    ghost var g, owner, ids := fs.geo, fs.owner, fs.files[id].ids;
    ghost var d := fs.dev.blocks;
    v := [];
    OwnIds(d, g, fs.files, owner, id);
    NothingGrown(d, g, owner, ids);
    for i := 0 to count
      invariant fs.dev.Valid() && fs.dev.pins == old(fs.dev.pins) && |v| == i
      invariant |fs.dev.blocks| == |d| && Growing(d, fs.dev.blocks, g, owner, ids, v)
      invariant forall x: nat | g.InData(x) :: fs.dev.blocks[x] == d[x]
    {
      ghost var used, d1 := owner.Keys + Blocks(v), fs.dev.blocks;
      GrowingUsed(d, d1, g, owner, ids, v);
      var x := fs.AllocData(used);
      GrowingStep(d, d1, fs.dev.blocks, g, owner, ids, v, x);
      v := v + [x];
    }
  }

  lemma OwnIds(d: seq<Block>, g: Geo, files: map<nat, File>, owner: map<nat, nat>, id: nat)
    requires VolumeOk(d, g, files, owner) && id in files
    ensures NoDup(files[id].ids) && InRange(files[id].ids, g.DataStart(), g.total) && FileOk(d, g, id, files[id])
    ensures id < 4096 * g.ib && DataBits(d, g, owner.Keys) && forall x | x in files[id].ids :: x in owner
  {
    hide BitAt, InodeAt, TreeOk, FileBytes, UnusedZero, SuperAt;
    assert FileOk(d, g, id, files[id]);
    forall i | 0 <= i < |files[id].ids| ensures g.DataStart() <= files[id].ids[i] < g.total {
      var x := files[id].ids[i];
      assert x in files[id].ids;
      assert x in owner && g.InData(x);
    }
  }

  /** `Inode::increase_size`: the inode grows by zero bytes, or stays as it is when it is already
      large enough. */
  method GrowInode(fs: EasyFileSystem, newSize: nat, ino: DiskInode, ghost id: nat) returns (more: seq<u32>)
    requires fs.Fields() && fs.dev.Valid() && |fs.dev.pins| <= 14
    requires VolumeOk(fs.dev.blocks, fs.geo, fs.files, fs.owner) && id in fs.files && id < 4096 * fs.geo.ib
    requires SlotBlock(fs.geo, id) < |fs.dev.blocks| &&
        ino.Rec() == InodeAt(fs.dev.blocks[SlotBlock(fs.geo, id)], id % 4)
    requires fs.geo.total <= |fs.dev.blocks|
    requires newSize <= MAX_FILE_SIZE && |fs.owner.Keys| + Missing(fs.files[id], newSize) <= fs.geo.da
    modifies fs.dev, ino
    ensures fs.dev.Valid() && fs.dev.pins == old(fs.dev.pins)
    ensures Growing(old(fs.dev.blocks), fs.dev.blocks, fs.geo, fs.owner, fs.files[id].ids, more)
    ensures |more| == Missing(fs.files[id], newSize)
    ensures
      var data := Overlay(fs.files[id].data, newSize, []);
      var ids := fs.files[id].ids + more;
      && ino.size == |data| && ino.isDir == old(ino.isDir) && |ids| == TotalBlocks(|data|)
      && TreeOk(fs.dev.blocks, ino.Rec(), DataBlocks(|data|), ids) &&
        FileBytes(fs.dev.blocks, DataBlocks(|data|), ids, data)
      && UnusedZero(fs.dev.blocks, ino.Rec(), DataBlocks(|data|), ids)
  {
    hide UnusedZero, UnusedKept;
    hide BlockCacheManager.Valid, VolumeOk, InodeAt, TreeOk, FileBytes, DataBits, InRange, NoDup, OnlyIndexChanged,
        Growing, Blocks, TotalOf, DataBlocks, Overlay;
    ghost var f, g, d := fs.files[id], fs.geo, fs.dev.blocks;
    OwnIds(d, g, fs.files, fs.owner, id);
    if newSize < ino.size {
      more := [];
      NothingGrown(d, g, fs.owner, f.ids);
      OverlayNothing(f.data, newSize);
      return;
    }
    TotalMonotone(ino.size, newSize);
    more := AllocBlocks(fs, TotalBlocks(newSize) - TotalBlocks(ino.size), id);
    ghost var d1, r := fs.dev.blocks, ino.Rec();
    SameTree(d, d1, g, r, f);
    GrowingUsed(d, d1, g, fs.owner, f.ids, more);
    RangeOfMore(g, fs.owner, more, |d1|);
    NewAreZero(d, d1, g, fs.files, fs.owner, more);
    var used := ino.IncreaseSize(newSize, more, fs.dev, f.ids);
    BlocksMonotone(r.size, newSize);
    UnusedZeroGrown(d1, fs.dev.blocks, r, ino.Rec(), DataBlocks(r.size), DataBlocks(newSize), f.ids, more);
    OverlayNothing(f.data, newSize);
    GrowBytes(d1, fs.dev.blocks, f.ids, more, f.data, newSize);
    GrowFrame(d, d1, fs.dev.blocks, g, fs.owner, f.ids, more, DataBlocks(newSize));
  }

  lemma BlocksMonotone(a: nat, b: nat)
    requires a <= b
    ensures DataBlocks(a) <= DataBlocks(b)
  {
  }

  lemma NewAreZero(d: seq<Block>, d1: seq<Block>, g: Geo, files: map<nat, File>, owner: map<nat, nat>, more: seq<u32>)
    requires VolumeOk(d, g, files, owner) && forall x | x in Blocks(more) :: g.InData(x) && x !in owner
    requires |d1| == |d| && forall x: nat | g.InData(x) :: x < |d| && d1[x] == d[x]
    ensures forall x | x in more :: x < |d1| && d1[x] == ZeroBlock()
  {
    hide BitAt, FilesOk, OwnerOk, InodeAt, SuperAt, ZeroBlock;
    forall x | x in more ensures x < |d1| && d1[x] == ZeroBlock() {
      assert x in Blocks(more);
    }
  }

  lemma NothingGrown(d: seq<Block>, g: Geo, owner: map<nat, nat>, ids: seq<u32>)
    requires GeoOk(g) && g.total <= |d| && NoDup(ids) && DataBits(d, g, owner.Keys)
    ensures Growing(d, d, g, owner, ids, []) && ids + [] == ids
  {
    assert ids + [] == ids;
    assert owner.Keys + Blocks([]) == owner.Keys;
  }

  /** Allocation touches the data bitmap only, so the file is still there. */
  lemma SameTree(d: seq<Block>, d1: seq<Block>, g: Geo, r: InodeRec, f: File)
    requires TreeOk(d, r, DataBlocks(|f.data|), f.ids) && FileBytes(d, DataBlocks(|f.data|), f.ids, f.data)
    requires |d1| == |d| && InRange(f.ids, g.DataStart(), g.total) && g.total == g.DataStart() + g.da
    requires forall x: nat | g.InData(x) :: x < |d| && d1[x] == d[x]
    requires UnusedZero(d, r, DataBlocks(|f.data|), f.ids)
    ensures TreeOk(d1, r, DataBlocks(|f.data|), f.ids) && FileBytes(d1, DataBlocks(|f.data|), f.ids, f.data)
    ensures UnusedZero(d1, r, DataBlocks(|f.data|), f.ids)
  {
    hide TreeOk, UnusedZero;
    var n := DataBlocks(|f.data|);
    TreeBounds(d, r, n, f.ids);
    forall p | 0 <= p < |f.ids| ensures d1[f.ids[p]] == d[f.ids[p]] {
      assert g.InData(f.ids[p]);
    }
    TreeFrame(d, d1, r, n, f.ids, f.ids);
    UnusedZeroFrame(d, d1, r, n, f.ids);
    forall k | 0 <= k < 512 * n ensures ByteAt(d1, n, f.ids, k) == if k < |f.data| then f.data[k] else 0 {
      assert ByteAt(d, n, f.ids, k) == if k < |f.data| then f.data[k] else 0;
      DataPosFacts(k / 512, n);
    }
  }

  lemma RangeOfMore(g: Geo, owner: map<nat, nat>, more: seq<u32>, size: nat)
    requires forall x | x in Blocks(more) :: g.InData(x) && x !in owner
    requires g.total == g.DataStart() + g.da <= size
    ensures InRange(more, 0, size) && InRange(more, g.DataStart(), g.total)
  {
    forall i | 0 <= i < |more| ensures g.DataStart() <= more[i] < g.total {
      assert more[i] in Blocks(more);
    }
  }

  lemma GrowFrame(d: seq<Block>, d1: seq<Block>, d2: seq<Block>, g: Geo, owner: map<nat, nat>, ids: seq<u32>,
            more: seq<u32>, n: nat)
    requires GeoOk(g) && g.total <= |d| && Growing(d, d1, g, owner, ids, more)
    requires OnlyIndexChanged(d1, d2, ids + more) && |ids + more| == TotalOf(n)
    requires InRange(ids, g.DataStart(), g.total) && InRange(more, g.DataStart(), g.total)
    ensures Growing(d, d2, g, owner, ids, more)
  {
    hide BitAt, OnlyIndexChanged, NoDup;
    OnlyIndexChangedFacts(d1, d2, n, ids + more);
    forall x: nat | x < g.DataStart() ensures d2[x] == d1[x] {
      assert x !in ids + more;
    }
    BitsFrame(d1, d2, g.DataBitmapStart(), g.db);
  }

  /** Entering the closure of `read_disk_inode` or `modify_disk_inode`: the inode block is held. */
  method OpenSlot(dev: BlockCacheManager, h: Inode, ghost id: nat) returns (ino: DiskInode)
    requires dev.Valid() && |dev.pins| <= 15 && h.blockId < |dev.blocks| && h.blockOffset == 128 * (id % 4)
    modifies dev
    ensures dev.Valid() && dev.pins == old(dev.pins) + multiset{h.blockId} && dev.blocks == old(dev.blocks)
    ensures old(dev.Clean()) ==> dev.Clean()
    ensures fresh(ino) && ino.Rec() == InodeAt(dev.blocks[h.blockId], id % 4)
  {
    hide BlockCacheManager.Valid, InodeAt;
    PinnedBound(dev.pins);
    dev.Get(h.blockId);
    var b := dev.ReadHeld(h.blockId);
    ino := new DiskInode(InodeAt(b, h.blockOffset / INODE_SIZE));
  }

  /** Leaving the closure of `modify_disk_inode`: the record is in its slot, the handle dropped. */
  method CloseSlot(dev: BlockCacheManager, h: Inode, ino: DiskInode, ghost id: nat)
    requires dev.Valid() && h.blockId in dev.pins && h.blockId < |dev.blocks| && h.blockOffset == 128 * (id % 4)
    requires |ino.direct| == 28
    modifies dev
    ensures dev.Valid() && dev.pins == old(dev.pins) - multiset{h.blockId}
    ensures dev.blocks == old(dev.blocks)[h.blockId := PutInode(old(dev.blocks)[h.blockId], id % 4, ino.Rec())]
  {
    hide BlockCacheManager.Valid, PutInode;
    var b := dev.ReadHeld(h.blockId);
    var r := InodeRec(ino.size, ino.direct, ino.indirect1, ino.indirect2, ino.isDir);
    dev.ModifyHeld(h.blockId, PutInode(b, h.blockOffset / INODE_SIZE, r));
    dev.Release(h.blockId);
  }

  /** `Inode::read_at` */
  method ReadAt(fs: EasyFileSystem, h: Inode, offset: nat, buf: array<byte>, ghost id: nat) returns (n: nat)
    requires fs.Valid() && id in fs.files && h == HandleOf(fs.geo, id)
    modifies buf, fs.dev
    ensures fs.Valid() && fs.dev.blocks == old(fs.dev.blocks) && (old(fs.dev.Clean()) ==> fs.dev.Clean())
    ensures n == if offset < |fs.files[id].data| then Min(buf.Length, |fs.files[id].data| - offset) else 0
    ensures n > 0 ==> buf[..n] == fs.files[id].data[offset..offset + n]
    ensures buf[n..] == old(buf[n..])
  {
    hide BlockCacheManager.Valid, VolumeOk, InodeAt, TreeOk, FileBytes, UnusedZero;
    ghost var f := fs.files[id];
    OwnIdsOf(fs, id);
    var ino := OpenSlot(fs.dev, h, id);
    n := FileData.ReadAt(ino, offset, buf, fs.dev, f.ids, f.data);
    fs.dev.Release(h.blockId);
  }

  lemma OwnIdsOf(fs: EasyFileSystem, id: nat)
    requires fs.Valid() && id in fs.files
    ensures id < 4096 * fs.geo.ib && FileOk(fs.dev.blocks, fs.geo, id, fs.files[id])
    ensures InRange(fs.files[id].ids, fs.geo.DataStart(), fs.geo.total)
    ensures VolumeOk(fs.dev.blocks, fs.geo, fs.files, fs.owner) && GeoOk(fs.geo) && fs.geo.total <= |fs.dev.blocks|
  {
    OwnIds(fs.dev.blocks, fs.geo, fs.files, fs.owner, id);
  }

  /** `Inode::write_at`: the file becomes the old contents, zero-padded up to `offset` and overlaid
      by `buf`; every other file keeps its contents and its blocks. Excluded are writes of no bytes at
      the start of a block behind the end whose lookup meets a missing index block. */
  method WriteAt(fs: EasyFileSystem, h: Inode, offset: nat, buf: seq<byte>, ghost id: nat) returns (n: nat)
    requires fs.Valid() && id in fs.files && h == HandleOf(fs.geo, id)
    requires offset + |buf| <= MAX_FILE_SIZE
    requires |buf| > 0 || offset % 512 != 0 || offset < |fs.files[id].data| || !Hole(offset / 512)
    requires |fs.owner.Keys| + Missing(fs.files[id], offset + |buf|) <= fs.geo.da
    modifies fs, fs.dev
    ensures fs.Valid() && n == |buf| && fs.dev.Clean()
    ensures fs.files.Keys == old(fs.files.Keys)
    ensures fs.files[id].data == Overlay(old(fs.files[id].data), offset, buf) &&
        fs.files[id].isDir == old(fs.files[id].isDir)
    ensures old(fs.files[id].ids) <= fs.files[id].ids
    ensures forall j | j in fs.files && j != id :: fs.files[j] == old(fs.files)[j]
    ensures |fs.owner.Keys| == |old(fs.owner.Keys)| + Missing(old(fs.files[id]), offset + |buf|)
  {
    hide BlockCacheManager.Valid, VolumeOk, Blocks, Claim, TotalBlocks, Overlay;
    assert VolumeOk(fs.dev.blocks, fs.geo, fs.files, fs.owner);
    ghost var more;
    n, more := WriteBlocks(fs, h, offset, buf, id);
    ghost var f := fs.files[id];
    fs.files := fs.files[id := File(f.ids + more, Overlay(f.data, offset, buf), f.isDir)];
    fs.owner := Claim(fs.owner, more, id);
    fs.dev.SyncAll();
  }

  /** The disk part of `write_at`, under one handle on the inode block. */
  method WriteBlocks(fs: EasyFileSystem, h: Inode, offset: nat, buf: seq<byte>, ghost id: nat)
    returns (n: nat, ghost more: seq<u32>)
    requires fs.Valid() && id in fs.files && h == HandleOf(fs.geo, id)
    requires offset + |buf| <= MAX_FILE_SIZE
    requires |buf| > 0 || offset % 512 != 0 || offset < |fs.files[id].data| || !Hole(offset / 512)
    requires |fs.owner.Keys| + Missing(fs.files[id], offset + |buf|) <= fs.geo.da
    modifies fs.dev
    ensures fs.dev.Valid() && fs.dev.pins == multiset{} && n == |buf|
    ensures var f := fs.files[id];
            VolumeOk(fs.dev.blocks, fs.geo, fs.files[id := File(f.ids + more, Overlay(f.data, offset, buf), f.isDir)],
                     Claim(fs.owner, more, id))
    ensures |Claim(fs.owner, more, id).Keys| == |fs.owner.Keys| + Missing(fs.files[id], offset + |buf|)
  {
    hide BlockCacheManager.Valid, VolumeOk, InodeAt, TreeOk, FileBytes, Growing, InRange, NoDup, PutInode, Blocks,
        Claim;
    hide DataBits, TotalBlocks, DataBlocks, Missing, Overlay, Splice, UnusedZero, Hole, CanStart, IndexKept;
    ghost var files, owner, f, g, d := fs.files, fs.owner, fs.files[id], fs.geo, fs.dev.blocks;
    OwnIdsOf(fs, id);
    var ino := OpenSlot(fs.dev, h, id);
    more := GrowInode(fs, offset + |buf|, ino, id);
    ghost var ids, grown, d1 := f.ids + more, Overlay(f.data, offset + |buf|, []), fs.dev.blocks;
    GrowingFacts(d, d1, g, owner, f.ids, more);
    WriteCanStart(d1, ino.Rec(), |f.data|, offset, |buf|, ids, |grown|);
    n := FileData.WriteAt(ino, offset, buf, fs.dev, ids, grown);
    ghost var d2, data := fs.dev.blocks, Overlay(f.data, offset, buf);
    assert buf[..n] == buf;
    OverlayInTwo(f.data, offset, buf);
    TreeDirect(d2, ino.Rec(), DataBlocks(|data|), ids);
    UnusedZeroFrame(d1, d2, ino.Rec(), DataBlocks(|data|), ids);
    CloseSlot(fs.dev, h, ino, id);
    FinishWrite(d, d1, d2, fs.dev.blocks, g, files, owner, id, File(ids, data, f.isDir), more, ino.Rec());
  }

  /** After growing, the block at `offset` exists exactly when the write is not an empty one at a
      block boundary at or behind the end of the file, where `offset` then is the end. */
  lemma BlockExists(size: nat, offset: nat, len: nat)
    ensures var total := if offset + len < size then size else offset + len;
            && offset <= total
            && (offset < 512 * DataBlocks(total) <==> len > 0 || offset % 512 != 0 || offset < size)
            && (offset >= 512 * DataBlocks(total) ==> total == offset && DataBlocks(total) == offset / 512)
  {
  }

  lemma WriteCanStart(d: seq<Block>, ino: InodeRec, size: nat, offset: nat, len: nat, ids: seq<u32>, total: nat)
    requires total == (if offset + len < size then size else offset + len) && 0 < |d|
    requires UnusedZero(d, ino, DataBlocks(total), ids)
    requires len > 0 || offset % 512 != 0 || offset < size || !Hole(offset / 512)
    ensures CanStart(d, ino, offset, len, ids, total)
  {
    hide UnusedZero, Hole;
    BlockExists(size, offset, len);
  }

  /** The blocks that `write_at` asks the cache for when it looks up data block `i`: index blocks, then
      the block itself; a number outside the disk ends the walk. */
  ghost function Walk(d: seq<Block>, ino: InodeRec, i: nat): seq<nat>
    requires |ino.direct| == 28 && i < INDIRECT2_BOUND
  {
    if i < 28 then [ino.direct[i]]
    else if i < 156 then [ino.ind1] + (if ino.ind1 < |d| then [Word(d[ino.ind1], i - 28)] else [])
    else
      var a, b := (i - 156) / 128, (i - 156) % 128;
      [ino.ind2] + if ino.ind2 >= |d| then [] else
        var sub := Word(d[ino.ind2], a);
        [sub] + if sub < |d| then [Word(d[sub], b)] else []
  }

  /** The lookup of the block behind the end of a file of `i` blocks reads the superblock as an index
      block and takes its magic number for a block number if that block would need a new index block;
      otherwise it ends at block 0, which is then left as it is. So on a disk of at most that many
      blocks the walk leaves the disk exactly at the holes. */
  ghost predicate FailsAtHoles(d: seq<Block>, r: InodeRec, i: nat)
    requires |r.direct| == 28 && i < INDIRECT2_BOUND
  {
    var walk := Walk(d, r, i);
    && (Hole(i) ==> EFS_MAGIC in walk)
    && (!Hole(i) ==> walk[|walk| - 1] == 0 && forall x | x in walk :: x < |d|)
    && (|d| <= EFS_MAGIC ==> (Hole(i) <==> exists x | x in walk :: x >= |d|))
  }

  /** The excluded empty writes are exactly those that go wrong: at the end of a file of whole blocks. */
  lemma EmptyWriteExact(d: seq<Block>, g: Geo, files: map<nat, File>, owner: map<nat, nat>, id: nat, i: nat)
    requires VolumeOk(d, g, files, owner) && id in files && |files[id].data| == 512 * i && i < INDIRECT2_BOUND
    requires SlotBlock(g, id) < |d|
    ensures FailsAtHoles(d, InodeAt(d[SlotBlock(g, id)], id % 4), i)
  {
    hide Word, BitAt, InodeAt, FileBytes, SuperAt, ZeroBlock, TreeOk, UnusedZero, FailsAtHoles, NoDup, InRange;
    OwnIds(d, g, files, owner, id);
    assert DataBlocks(|files[id].data|) == i;
    LookupBehindTheEnd(d, g, InodeAt(d[SlotBlock(g, id)], id % 4), i, files[id].ids);
  }

  /** The same behind the end: the write first grows the file by the blocks `more`, and then looks up a
      block in the tree of the grown record `r`. */
  lemma EmptyWriteBeyond(d: seq<Block>, d1: seq<Block>, g: Geo, files: map<nat, File>, owner: map<nat, nat>, id: nat,
            more: seq<u32>, r: InodeRec, i: nat)
    requires VolumeOk(d, g, files, owner) && id in files && |files[id].data| <= 512 * i && i < INDIRECT2_BOUND
    requires g.total <= |d| && Growing(d, d1, g, owner, files[id].ids, more)
    requires |r.direct| == 28 && TreeOk(d1, r, i, files[id].ids + more) && UnusedZero(d1, r, i, files[id].ids + more)
    requires |more| == Missing(files[id], 512 * i)
    ensures FailsAtHoles(d1, r, i)
  {
    hide Word, BitAt, InodeAt, FileBytes, SuperAt, ZeroBlock, TreeOk, UnusedZero, FailsAtHoles, NoDup, InRange,
        DataBits;
    OwnIds(d, g, files, owner, id);
    assert DataBlocks(512 * i) == i;
    TotalMonotone(|files[id].data|, 512 * i);
    LookupBehindTheEnd(d1, g, r, i, files[id].ids + more);
  }

  lemma LookupBehindTheEnd(d: seq<Block>, g: Geo, r: InodeRec, i: nat, ids: seq<u32>)
    requires 0 < |d| && SuperOk(d, g) && TreeOk(d, r, i, ids) && UnusedZero(d, r, i, ids) && |ids| == TotalOf(i)
    requires |r.direct| == 28 && i < INDIRECT2_BOUND
    ensures FailsAtHoles(d, r, i)
  {
    hide Word, SuperOk, TreeOk, UnusedZero, Walk, Hole;
    if Hole(i) {
      WalkAtHole(d, g, r, i, ids);
    } else {
      WalkBehindTheEnd(d, r, i, ids);
    }
  }

  lemma WalkBehindTheEnd(d: seq<Block>, r: InodeRec, i: nat, ids: seq<u32>)
    requires 0 < |d| && TreeOk(d, r, i, ids) && UnusedZero(d, r, i, ids) && !Hole(i) && i < INDIRECT2_BOUND
    ensures var walk := Walk(d, r, i); walk[|walk| - 1] == 0 && forall x | x in walk :: x < |d|
  {
    hide Word, TreeOk, UnusedZero, Hole;
    UnusedPointers(d, r, i, ids);
    TreeBounds(d, r, i, ids);
    BehindTheEnd(d, r, i, ids);
    NotAtHole(i);
    if i > 156 {
      SubBound(i);
      RangeAt(ids, 157, |d|);
      RangeAt(ids, SubPos((i - 156) / 128), |d|);
    } else if i > 28 {
      RangeAt(ids, 28, |d|);
    }
  }

  lemma NotAtHole(i: nat)
    requires !Hole(i)
    ensures i != 28 && i != 156
  {
  }

  lemma SubBound(i: nat)
    requires i > 156 && !Hole(i)
    ensures 157 < SubPos((i - 156) / 128) < TotalOf(i)
  {
  }

  lemma WalkAtHole(d: seq<Block>, g: Geo, r: InodeRec, i: nat, ids: seq<u32>)
    requires 0 < |d| && SuperOk(d, g) && TreeOk(d, r, i, ids) && UnusedZero(d, r, i, ids) && |ids| == TotalOf(i)
    requires Hole(i) && i < INDIRECT2_BOUND
    ensures EFS_MAGIC in Walk(d, r, i)
  {
    hide Word;
    MagicWord(d, g);
    if i > 156 {
      var a := (i - 156) / 128;
      assert IsIndexPos(157) && !Used(157, a, i);
      assert Walk(d, r, i)[2] == EFS_MAGIC;
    } else {
      assert Walk(d, r, i)[1] == EFS_MAGIC;
    }
  }

  lemma MagicWord(d: seq<Block>, g: Geo)
    requires 0 < |d| && SuperOk(d, g)
    ensures Word(d[0], 0) == EFS_MAGIC
  {
    assert SuperAt(d[0]).magic == EFS_MAGIC;
  }

  lemma GrowingFacts(d: seq<Block>, d': seq<Block>, g: Geo, owner: map<nat, nat>, ids: seq<u32>, more: seq<u32>)
    requires GeoOk(g) && g.total <= |d| && Growing(d, d', g, owner, ids, more)
    ensures |d'| == |d| && NoDup(ids + more)
  {
  }

  lemma ClaimKeys(owner: map<nat, nat>, more: seq<u32>, id: nat)
    ensures Claim(owner, more, id).Keys == owner.Keys + Blocks(more)
  {
  }

  /** The three stages of a write, put together. */
  lemma FinishWrite(d: seq<Block>, d1: seq<Block>, d2: seq<Block>, d3: seq<Block>, g: Geo, files: map<nat, File>,
                    owner: map<nat, nat>, id: nat, f: File, more: seq<u32>, r: InodeRec)
    requires VolumeOk(d, g, files, owner) && id in files && id < 4096 * g.ib
    requires GeoOk(g) && g.total <= |d| && Growing(d, d1, g, owner, files[id].ids, more)
    requires f.ids == files[id].ids + more && InRange(files[id].ids, g.DataStart(), g.total)
    requires |d2| == |d1| && forall x: u32 | x < |d1| && x !in f.ids :: d2[x] == d1[x]
    requires |r.direct| == 28 && SlotBlock(g, id) < |d2|
    requires d3 == d2[SlotBlock(g, id) := PutInode(d2[SlotBlock(g, id)], id % 4, r)]
    requires r.size == |f.data| && r.isDir == f.isDir && |f.ids| == TotalBlocks(|f.data|)
    requires TreeOk(d2, r, DataBlocks(|f.data|), f.ids) && FileBytes(d2, DataBlocks(|f.data|), f.ids, f.data)
    requires UnusedZero(d2, r, DataBlocks(|f.data|), f.ids)
    ensures VolumeOk(d3, g, files[id := f], Claim(owner, more, id))
    ensures |Claim(owner, more, id).Keys| == |owner.Keys| + |more|
  {
    hide BitAt, InodeAt, PutInode, TreeOk, FileBytes, UnusedZero, NoDup, VolumeOk;
    ClaimKeys(owner, more, id);
    GrowingUsed(d, d1, g, owner, files[id].ids, more);
    RangeOfMore(g, owner, more, |d|);
    StoreInode(d2, d3, g, id, r, f);
    SlotsDisjoint(g, id, id);
    forall x: nat | x < g.DataStart() ensures d2[x] == d1[x] {
      assert x !in f.ids;
    }
    assert DataBits(d3, g, owner.Keys + Blocks(more)) by {
      BitsFrame(d1, d3, g.DataBitmapStart(), g.db);
    }
    assert Untouched(d, d3, g, id, f.ids) by {
      forall i | 0 <= i < 4096 * g.ib && i != id
        ensures InodeAt(d3[SlotBlock(g, i)], i % 4) == InodeAt(d[SlotBlock(g, i)], i % 4)
      {
        SlotsDisjoint(g, i, id);
      }
    }
    CommitWrite(d, d3, g, files, owner, id, f, more);
  }

  /** The disk while the first `k` blocks of `v` have been given back. */
  ghost predicate Draining(d: seq<Block>, d': seq<Block>, g: Geo, used: set<nat>, v: seq<u32>, k: nat)
    requires GeoOk(g) && g.total <= |d|
  {
    && |d'| == |d| && k <= |v|
    && (forall x | 0 <= x < g.DataBitmapStart() :: d'[x] == d[x])
    && (forall x: u32 | g.InData(x) :: d'[x] == if x in v[..k] then ZeroBlock() else d[x])
    && DataBits(d', g, used - Blocks(v[..k]))
  }

  lemma DrainStep(d: seq<Block>, d1: seq<Block>, d2: seq<Block>, g: Geo, used: set<nat>, v: seq<u32>, k: nat)
    requires GeoOk(g) && g.total <= |d| && Draining(d, d1, g, used, v, k) && k < |v| && g.InData(v[k])
    requires |d2| == |d1| && d2[v[k]] == ZeroBlock()
    requires DataBits(d2, g, (used - Blocks(v[..k])) - {v[k] as nat})
    requires forall y | 0 <= y < |d1| && y != v[k] && !(g.DataBitmapStart() <= y < g.DataStart()) :: d2[y] == d1[y]
    ensures Draining(d, d2, g, used, v, k + 1)
  {
    hide BitAt, ZeroBlock;
    assert v[..k + 1] == v[..k] + [v[k]];
    assert (used - Blocks(v[..k])) - {v[k] as nat} == used - Blocks(v[..k + 1]);
  }

  lemma DrainMore(used: set<nat>, v: seq<u32>, k: nat)
    requires NoDup(v) && k < |v| && v[k] in used
    ensures v[k] in used - Blocks(v[..k])
  {
  }

  /** The deallocation loop of `Inode::clear`. */
  method DeallocBlocks(fs: EasyFileSystem, v: seq<u32>)
    requires fs.Fields() && fs.dev.Valid() && |fs.dev.pins| <= 15 && fs.geo.total <= |fs.dev.blocks|
    requires DataBits(fs.dev.blocks, fs.geo, fs.owner.Keys) && NoDup(v) && forall x | x in v ::
        fs.geo.InData(x) && x in fs.owner
    modifies fs.dev
    ensures fs.dev.Valid() && fs.dev.pins == old(fs.dev.pins)
    ensures Draining(old(fs.dev.blocks), fs.dev.blocks, fs.geo, fs.owner.Keys, v, |v|)
    ensures |fs.dev.blocks| == |old(fs.dev.blocks)|
  {
    hide BlockCacheManager.Valid, Draining, DataBits, NoDup, Blocks;
    ghost var d, g, used := fs.dev.blocks, fs.geo, fs.owner.Keys;
    DrainNone(d, g, used, v);
    for k := 0 to |v|
      invariant fs.dev.Valid() && fs.dev.pins == old(fs.dev.pins) && |fs.dev.blocks| == |d|
      invariant Draining(d, fs.dev.blocks, g, used, v, k) && DataBits(fs.dev.blocks, g, used - Blocks(v[..k]))
    {
      ghost var d1 := fs.dev.blocks;
      assert v[k] in v;
      DrainMore(used, v, k);
      fs.DeallocData(v[k], used - Blocks(v[..k]));
      DrainStep(d, d1, fs.dev.blocks, g, used, v, k);
      DrainBits(d, fs.dev.blocks, g, used, v, k + 1);
    }
  }

  lemma DrainNone(d: seq<Block>, g: Geo, used: set<nat>, v: seq<u32>)
    requires GeoOk(g) && g.total <= |d| && DataBits(d, g, used)
    ensures Draining(d, d, g, used, v, 0) && DataBits(d, g, used - Blocks(v[..0]))
  {
    hide BitAt;
    assert used - Blocks(v[..0]) == used;
  }

  lemma DrainBits(d: seq<Block>, d': seq<Block>, g: Geo, used: set<nat>, v: seq<u32>, k: nat)
    requires GeoOk(g) && g.total <= |d| && Draining(d, d', g, used, v, k)
    ensures DataBits(d', g, used - Blocks(v[..k]))
  {
  }

  /** Clearing, once the blocks are drained and the emptied record is stored. */
  lemma FinishClear(d: seq<Block>, d1: seq<Block>, d2: seq<Block>, g: Geo, files: map<nat, File>, owner: map<nat, nat>,
                    id: nat, r: InodeRec)
    requires VolumeOk(d, g, files, owner) && id in files && id < 4096 * g.ib
    requires GeoOk(g) && g.total <= |d| && Draining(d, d1, g, owner.Keys, files[id].ids, |files[id].ids|)
    requires InRange(files[id].ids, g.DataStart(), g.total)
    requires |r.direct| == 28 && r.size == 0 && r.isDir == files[id].isDir && SlotBlock(g, id) < |d1|
    requires r.ind1 == 0 && r.ind2 == 0 && forall i | 0 <= i < 28 :: r.direct[i] == 0
    requires d2 == d1[SlotBlock(g, id) := PutInode(d1[SlotBlock(g, id)], id % 4, r)]
    ensures VolumeOk(d2, g, files[id := File([], [], files[id].isDir)], owner - Blocks(files[id].ids))
  {
    hide BitAt, InodeAt, PutInode, NoDup, VolumeOk, ZeroBlock;
    var f, ids := File([], [], files[id].isDir), files[id].ids;
    assert ids[..|ids|] == ids;
    EmptyFile(d1, g, r);
    StoreInode(d1, d2, g, id, r, f);
    SlotsDisjoint(g, id, id);
    assert DataBits(d2, g, owner.Keys - Blocks(ids)) by {
      BitsFrame(d1, d2, g.DataBitmapStart(), g.db);
    }
    assert Untouched(d, d2, g, id, ids) by {
      forall i | 0 <= i < 4096 * g.ib && i != id
        ensures InodeAt(d2[SlotBlock(g, i)], i % 4) == InodeAt(d[SlotBlock(g, i)], i % 4)
      {
        SlotsDisjoint(g, i, id);
      }
    }
    CommitClear(d, d2, g, files, owner, id);
  }

  lemma UnusedPointers(d: seq<Block>, r: InodeRec, n: nat, ids: seq<u32>)
    requires UnusedZero(d, r, n, ids)
    ensures |r.direct| == 28 && (forall i | n <= i < 28 :: r.direct[i] == 0)
    ensures (n <= 28 ==> r.ind1 == 0) && (n <= 156 ==> r.ind2 == 0)
  {
  }

  /** The disk part of `clear`. */
  method ClearBlocks(fs: EasyFileSystem, h: Inode, ghost id: nat)
    requires fs.Valid() && id in fs.files && h == HandleOf(fs.geo, id)
    modifies fs.dev
    ensures fs.dev.Valid() && fs.dev.pins == multiset{}
    ensures VolumeOk(fs.dev.blocks, fs.geo, fs.files[id := File([], [], fs.files[id].isDir)],
        fs.owner - Blocks(fs.files[id].ids))
  {
    hide BlockCacheManager.Valid, VolumeOk, InodeAt, TreeOk, FileBytes, UnusedZero, Draining, NoDup, PutInode, Blocks;
    hide DataBits, TotalOf, DataBlocks;
    ghost var files, owner, f, g, d := fs.files, fs.owner, fs.files[id], fs.geo, fs.dev.blocks;
    OwnIdsOf(fs, id);
    OwnIds(d, g, files, owner, id);
    var ino := OpenSlot(fs.dev, h, id);
    var size := ino.size;
    UnusedPointers(d, ino.Rec(), DataBlocks(|f.data|), f.ids);
    var v := ino.ClearSize(fs.dev, f.ids);
    assert |v| == TotalBlocks(size);
    DeallocBlocks(fs, v);
    ghost var d1 := fs.dev.blocks;
    CloseSlot(fs.dev, h, ino, id);
    FinishClear(d, d1, fs.dev.blocks, g, files, owner, id, ino.Rec());
  }

  /** `Inode::clear`: the file becomes empty and exactly its blocks become free; every other file
      is unchanged. */
  method Clear(fs: EasyFileSystem, h: Inode, ghost id: nat)
    requires fs.Valid() && id in fs.files && h == HandleOf(fs.geo, id)
    modifies fs, fs.dev
    ensures fs.Valid() && fs.dev.Clean()
    ensures fs.files == old(fs.files)[id := File([], [], old(fs.files[id].isDir))]
    ensures fs.owner.Keys == old(fs.owner.Keys) - Blocks(old(fs.files[id].ids))
  {
    hide BlockCacheManager.Valid, VolumeOk, Blocks;
    ClearBlocks(fs, h, id);
    ghost var f := fs.files[id];
    fs.files, fs.owner := fs.files[id := File([], [], f.isDir)], fs.owner - Blocks(f.ids);
    fs.dev.SyncAll();
  }
}
