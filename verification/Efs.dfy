/** The disk block manager of easy-fs/src/efs.rs. */
module Efs {
  import opened Bytes
  import opened BlockCache
  import opened BitmapAlloc
  import opened Layout
  import opened FileData
  import opened Codec
  import opened Volume

  /** The split computed by `EasyFileSystem::create`. */
  function Plan(total: nat, ib: nat): Geo
    requires total >= 1 + ib + (ib * 4096 * 128 + 511) / 512
  {
    var ia := (ib * 4096 * 128 + 511) / 512;
    var rest := total - 1 - (ib + ia);
    var db := (rest + 4096) / 4097;
    Geo(total, ib, ia, db, rest - db)
  }

  /** The five regions tile the disk, with the inode bitmap that was asked for and 1024 inode blocks
      for each of its blocks; the data bitmap covers the data area with less than a block to spare.
      This leaves one geometry. */
  lemma PlanTiles(total: nat, ib: nat)
    requires 1 <= ib && total < 0x1_0000_0000 && total >= 1 + ib + (ib * 4096 * 128 + 511) / 512
    ensures GeoOk(Plan(total, ib))
    ensures
      var g := Plan(total, ib);
      && g.total == total && g.ib == ib && g.ia == 1024 * ib && 1 + g.ib + g.ia + g.db + g.da == total
      && g.da <= 4096 * g.db && (g.db > 0 ==> 4096 * (g.db - 1) <= g.da)
    ensures forall g: Geo | g.total == total && g.ib == ib && g.ia == 1024 * ib &&
                1 + g.ib + g.ia + g.db + g.da == total && g.da <= 4096 * g.db &&
                (g.db > 0 ==> 4096 * (g.db - 1) <= g.da) :: g == Plan(total, ib)
  {
  }

  /** The first half of `create`: all blocks cleared, then the superblock written. */
  method Format(dev: BlockCacheManager, g: Geo)
    requires dev.Valid() && dev.pins == multiset{} && GeoOk(g) && g.total <= |dev.blocks|
    modifies dev
    ensures dev.Valid() && dev.pins == multiset{} && |dev.blocks| == |old(dev.blocks)|
    ensures VolumeOk(dev.blocks, g, map[], map[])
  {
    hide BlockCacheManager.Valid, BitAt, InodeAt, SuperAt, PutSuper, VolumeOk, U32At;
    for i := 0 to g.total
      invariant dev.Valid() && dev.pins == multiset{} && |dev.blocks| == |old(dev.blocks)|
      invariant forall k | 0 <= k < i :: dev.blocks[k] == ZeroBlock()
    {
      dev.Modify(i, ZeroBlock());
    }
    var sb := SuperBlock(EFS_MAGIC, g.total, g.ib, g.ia, g.db, g.da);
    var b := dev.Read(0);
    dev.Modify(0, PutSuper(b, sb));
    SuperRoundTrip(b, sb);
    EmptyVolume(dev.blocks, g);
  }

  class EasyFileSystem {
    const dev: BlockCacheManager
    const inodeBitmap: Bitmap
    const dataBitmap: Bitmap
    const inodeAreaStart: nat
    const dataAreaStart: nat
    ghost const geo: Geo
    ghost var files: map<nat, File>
    ghost var owner: map<nat, nat>

    ghost predicate Fields() {
      && GeoOk(geo) && inodeBitmap == Bitmap(1, geo.ib) && dataBitmap == Bitmap(geo.DataBitmapStart(), geo.db)
      && inodeAreaStart == geo.InodeStart() && dataAreaStart == geo.DataStart()
    }

    ghost predicate Valid()
      reads this, dev
    {
      Fields() && dev.Valid() && dev.pins == multiset{} && VolumeOk(dev.blocks, geo, files, owner)
    }

    /** `get_disk_inode_pos` */
    method GetDiskInodePos(id: nat) returns (block: nat, offset: nat)
      requires Fields()
      ensures block == SlotBlock(geo, id) && offset == 128 * (id % 4)
      ensures block == 1 + geo.ib + id / 4
    {
      block, offset := inodeAreaStart + id / INODES_PER_BLOCK, id % INODES_PER_BLOCK * INODE_SIZE;
    }

    /** `alloc_data`: first fit stays inside the data area while fewer than `da` blocks are used. */
    method AllocData(ghost used: set<nat>) returns (x: u32)
      requires Fields() && dev.Valid() && |dev.pins| <= 15 && geo.total <= |dev.blocks|
      requires DataBits(dev.blocks, geo, used) && |used| < geo.da
      modifies dev
      ensures dev.Valid() && dev.pins == old(dev.pins)
      ensures x !in used && geo.InData(x) && DataBits(dev.blocks, geo, used + {x as nat})
      ensures forall y: nat | geo.DataStart() <= y < x :: y in used
      ensures SameOutside(old(dev.blocks), dev.blocks, geo.DataBitmapStart(), geo.DataStart())
    {
      hide BlockCacheManager.Valid, BitAt;
      var r := dataBitmap.Alloc(dev);
      if r.None? {
        forall y | geo.DataStart() <= y < geo.DataStart() + 4096 * geo.db ensures y in used {
          assert BitAt(dev.blocks, geo.DataBitmapStart(), y - geo.DataStart());
        }
        IntervalSize(geo.DataStart(), 4096 * geo.db, used);
        assert false;
      }
      forall y | geo.DataStart() <= y < geo.DataStart() + r.value ensures y in used {
        assert BitAt(old(dev.blocks), geo.DataBitmapStart(), y - geo.DataStart());
      }
      IntervalSize(geo.DataStart(), r.value, used);
      x := r.value + dataAreaStart;
    }

    /** `dealloc_data`: the block is zeroed and its bit cleared; the bit-set assertion holds. */
    method DeallocData(x: u32, ghost used: set<nat>)
      requires Fields() && dev.Valid() && |dev.pins| <= 15 && geo.total <= |dev.blocks|
      requires DataBits(dev.blocks, geo, used) && geo.InData(x) && x in used
      modifies dev
      ensures dev.Valid() && dev.pins == old(dev.pins) && |dev.blocks| == |old(dev.blocks)|
      ensures DataBits(dev.blocks, geo, used - {x as nat}) && dev.blocks[x] == ZeroBlock()
      ensures forall y | 0 <= y < |dev.blocks| && y != x && !(geo.DataBitmapStart() <= y < geo.DataStart()) ::
                dev.blocks[y] == old(dev.blocks)[y]
    {
      hide BlockCacheManager.Valid, BitAt;
      dev.Modify(x, ZeroBlock());
      BitsFrame(old(dev.blocks), dev.blocks, geo.DataBitmapStart(), geo.db);
      assert BitAt(old(dev.blocks), geo.DataBitmapStart(), x - geo.DataStart());
      dataBitmap.Dealloc(dev, x - dataAreaStart);
    }

    /** `alloc_inode`: the least free inode number. */
    method AllocInode() returns (id: nat)
      requires Fields() && dev.Valid() && |dev.pins| <= 15 && geo.total <= |dev.blocks|
      requires InodeBits(dev.blocks, geo, files) && exists i: nat | i < 4096 * geo.ib :: i !in files
      modifies dev
      ensures dev.Valid() && dev.pins == old(dev.pins)
      ensures id < 4096 * geo.ib && id !in files && forall i: nat | i < id :: i in files
      ensures forall i | 0 <= i < 4096 * geo.ib :: BitAt(dev.blocks, 1, i) <==> i == id || i in files
      ensures SameOutside(old(dev.blocks), dev.blocks, 1, 1 + geo.ib)
    {
      hide BlockCacheManager.Valid, BitAt;
      var r := inodeBitmap.Alloc(dev);
      if r.None? {
        assert false;
      }
      id := r.value;
    }

    /** `alloc_inode` followed by `initialize`: the least free inode number becomes an empty file. */
    method NewInode(isDir: bool) returns (id: nat)
      requires Valid() && exists i: nat | i < 4096 * geo.ib :: i !in files
      modifies this`files, dev
      ensures Valid() && id < 4096 * geo.ib && id !in old(files) && forall i: nat | i < id :: i in old(files)
      ensures files == old(files)[id := File([], [], isDir)]
    {
      hide BlockCacheManager.Valid, BitAt, InodeAt, PutInode, FilesOk, OwnerOk, FreeZero, SuperAt, DataBits;
      ghost var d0 := dev.blocks;
      id := AllocInode();
      ghost var d1 := dev.blocks;
      var block, offset := GetDiskInodePos(id);
      SlotsDisjoint(geo, id, id);
      var b := dev.Read(block);
      var rec := InodeRec(0, seq<u32>(28, _ => 0), 0, 0, isDir);
      dev.Modify(block, PutInode(b, offset / 128, rec));
      EmptyFile(d1, geo, rec);
      StoreInode(d1, dev.blocks, geo, id, rec, File([], [], isDir));
      BitsFrame(d1, dev.blocks, 1, geo.ib);
      forall i | 0 <= i < 4096 * geo.ib && i != id
        ensures InodeAt(dev.blocks[SlotBlock(geo, i)], i % 4) == InodeAt(d0[SlotBlock(geo, i)], i % 4)
      {
        SlotsDisjoint(geo, i, id);
      }
      CommitInode(d0, dev.blocks, geo, files, owner, id, isDir);
      files := files[id := File([], [], isDir)];
    }

    /** `create`: whatever was on the device, an empty volume with the root directory at inode 0. */
    constructor Create(dev: BlockCacheManager, total: u32, ib: u32)
      requires dev.Valid() && dev.pins == multiset{} && total <= |dev.blocks|
      requires 1 <= ib && total >= 1 + ib + (ib * 4096 * 128 + 511) / 512
      modifies dev
      ensures Valid() && this.dev == dev && geo == Plan(total, ib)
      ensures geo.total == total && inodeBitmap.start == 1 && inodeBitmap.Maximum() == 4096 * ib
      ensures inodeAreaStart == 1 + ib && dataBitmap.start == 1 + 1025 * ib
      ensures dataAreaStart == dataBitmap.start + dataBitmap.blocks && dataAreaStart + geo.da == total
      ensures files == map[0 := File([], [], true)] && owner == map[]
      ensures dev.Clean()
    {
      hide BlockCacheManager.Valid, VolumeOk;
      var g := Plan(total, ib);
      this.dev := dev;
      inodeBitmap, dataBitmap := Bitmap(1, g.ib), Bitmap(g.DataBitmapStart(), g.db);
      inodeAreaStart, dataAreaStart := g.InodeStart(), g.DataStart();
      geo, files, owner := g, map[], map[];
      new;
      PlanTiles(total, ib);
      Format(dev, g);
      assert 0 !in files;
      var root := NewInode(true);
      assert root == 0;
      dev.SyncAll();
    }

    /** `open`: the geometry that `create` chose is recovered from the superblock. */
    constructor Open(dev: BlockCacheManager, ghost g: Geo, ghost files: map<nat, File>, ghost owner: map<nat, nat>)
      requires dev.Valid() && dev.pins == multiset{} && VolumeOk(dev.blocks, g, files, owner)
      modifies dev
      ensures Valid() && this.dev == dev && geo == g && this.files == files && this.owner == owner
      ensures dev.blocks == old(dev.blocks) && (old(dev.Clean()) ==> dev.Clean())
    {
      hide BlockCacheManager.Valid, BitAt, InodeAt, SuperAt, FilesOk, OwnerOk, FreeZero;
      var b := dev.Read(0);
      var sb := SuperAt(b);
      assert sb.magic == EFS_MAGIC;
      this.dev := dev;
      var inodeTotal := sb.inodeBitmap + sb.inodeArea;
      inodeBitmap, dataBitmap := Bitmap(1, sb.inodeBitmap), Bitmap(1 + inodeTotal, sb.dataBitmap);
      inodeAreaStart, dataAreaStart := 1 + sb.inodeBitmap, 1 + inodeTotal + sb.dataBitmap;
      geo, this.files, this.owner := g, files, owner;
    }
  }

  lemma EmptyFile(d: seq<Block>, g: Geo, rec: InodeRec)
    requires |rec.direct| == 28 && rec.ind1 == 0 && rec.ind2 == 0 && forall i | 0 <= i < 28 :: rec.direct[i] == 0
    ensures UnusedZero(d, rec, 0, []) && TreeOk(d, rec, 0, []) && FileBytes(d, 0, [], []) && NoDup([]) &&
        InRange([], g.DataStart(), g.total)
  {
  }

  lemma EmptyVolume(d: seq<Block>, g: Geo)
    requires GeoOk(g) && g.total <= |d| && SuperOk(d, g)
    requires forall k | 1 <= k < g.total :: d[k] == ZeroBlock()
    ensures VolumeOk(d, g, map[], map[])
  {
    hide BlockBit, SuperAt, ZeroBlock;
    forall i | 0 <= i < 4096 * g.ib ensures !BitAt(d, 1, i) {
      ZeroBlockBits(i % 4096);
    }
    forall i | 0 <= i < 4096 * g.db ensures !BitAt(d, g.DataBitmapStart(), i) {
      ZeroBlockBits(i % 4096);
    }
  }
}
