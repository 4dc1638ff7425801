/** The flat root directory and the file system as a whole (easy-fs/src/vfs.rs). */
module Directory {
  import opened Basics
  import opened Bytes
  import opened BlockCache
  import opened Layout
  import opened DiskInodes
  import opened FileData
  import opened Codec
  import opened Volume
  import opened Efs
  import opened Vfs

  /** Entry `i` of the directory file is the encoding of `dir[i]`. */
  ghost predicate Encodes(data: seq<byte>, dir: seq<DirEnt>) {
    && |data| == 32 * |dir|
    && forall i | 0 <= i < |dir| :: ValidName(dir[i].name) && data[32 * i..32 * i + 32] == EncodeEntry(dir[i])
  }

  ghost predicate DistinctEntries(dir: seq<DirEnt>) {
    forall i, j | 0 <= i < j < |dir| :: dir[i].name != dir[j].name && dir[i].id != dir[j].id
  }

  /** The root directory lists every other inode exactly once, under distinct names; as files are
      never removed, the inodes are numbered in creation order. */
  ghost predicate DirOk(files: map<nat, File>, dir: seq<DirEnt>) {
    && 0 in files && files[0].isDir && Encodes(files[0].data, dir) && DistinctEntries(dir)
    && (forall i | 0 <= i < |dir| :: dir[i].id == i + 1 && dir[i].id in files)
    && (forall id | id in files && id != 0 :: exists i | 0 <= i < |dir| :: dir[i].id == id)
  }

  ghost predicate HasName(dir: seq<DirEnt>, name: Name) {
    exists i | 0 <= i < |dir| :: dir[i].name == name
  }

  /** A loaded record of the root inode. */
  ghost predicate IsRoot(r: InodeRec, d: seq<Block>, files: map<nat, File>) {
    && 0 in files && r.size == |files[0].data| && r.isDir == files[0].isDir
    && TreeOk(d, r, DataBlocks(r.size), files[0].ids) && FileBytes(d, DataBlocks(r.size), files[0].ids, files[0].data)
  }

  /** Decoding a stored entry gives back its name and number. */
  lemma StoredEntry(data: seq<byte>, dir: seq<DirEnt>, i: nat)
    requires Encodes(data, dir) && i < |dir|
    ensures 32 * i + 32 <= |data|
    ensures var s := data[32 * i..32 * i + 32];
            NameLen(s, 0) < 28 && DecodeName(s) == dir[i].name && DecodeId(s) == dir[i].id
  {
    EntryRoundTrip(dir[i]);
  }

  /** Writing an entry behind the last one appends it to the directory. */
  lemma AppendEntry(data: seq<byte>, dir: seq<DirEnt>, e: DirEnt)
    requires Encodes(data, dir) && ValidName(e.name)
    ensures Encodes(Overlay(data, 32 * |dir|, EncodeEntry(e)), dir + [e])
  {
    hide EncodeEntry, Overlay;
    var data', dir', n := Overlay(data, 32 * |dir|, EncodeEntry(e)), dir + [e], |dir|;
    OverlayAppend(data, EncodeEntry(e));
    forall i | 0 <= i < |dir'| ensures ValidName(dir'[i].name) && data'[32 * i..32 * i + 32] == EncodeEntry(dir'[i]) {
      if i < n {
        assert data'[32 * i..32 * i + 32] == data[32 * i..32 * i + 32];
      }
    }
  }

  lemma OverlayAppend(data: seq<byte>, buf: seq<byte>)
    ensures Overlay(data, |data|, buf) == data + buf
  {
  }

  /** A new, named inode keeps the directory in order. */
  lemma NewEntry(files: map<nat, File>, dir: seq<DirEnt>, id: u32, name: Name, root: File)
    requires DirOk(files, dir) && id == |dir| + 1 && id !in files && ValidName(name) && !HasName(dir, name)
    requires root.isDir && root.data == Overlay(files[0].data, |files[0].data|, EncodeEntry(DirEnt(name, id)))
    ensures DirOk(files[id := File([], [], false)][0 := root], dir + [DirEnt(name, id)])
  {
    hide Overlay, EncodeEntry, ValidName;
    var e := DirEnt(name, id);
    var files', dir' := files[id := File([], [], false)][0 := root], dir + [e];
    AppendEntry(files[0].data, dir, e);
    forall i, j | 0 <= i < j < |dir'| ensures dir'[i].name != dir'[j].name && dir'[i].id != dir'[j].id {
      if j == |dir| {
        assert dir[i].id in files;
      }
    }
    forall k | k in files' && k != 0 ensures exists i | 0 <= i < |dir'| :: dir'[i].id == k {
      if k == id {
        assert dir'[|dir|].id == k;
      } else {
        var i :| 0 <= i < |dir| && dir[i].id == k;
        assert dir'[i].id == k;
      }
    }
  }

  /** The mounted file system: the root inode with the volume below it. */
  class FileSystem {
    const fs: EasyFileSystem
    ghost var dir: seq<DirEnt>

    ghost predicate Valid()
      reads this, fs, fs.dev
    {
      fs.Valid() && DirOk(fs.files, dir)
    }

    constructor Mount(fs: EasyFileSystem, ghost dir: seq<DirEnt>)
      requires fs.Valid() && DirOk(fs.files, dir)
      ensures Valid() && this.fs == fs && this.dir == dir
    {
      hide BlockCacheManager.Valid, VolumeOk, DirOk;
      this.fs, this.dir := fs, dir;
    }

    /** One iteration of the directory loops: `read_at` of 32 bytes, which are all there, decoded. */
    method ReadEntry(ino: DiskInode, i: nat, buf: array<byte>) returns (e: DirEnt)
      requires fs.dev.Valid() && |fs.dev.pins| <= 15 && DirOk(fs.files, dir)
      requires IsRoot(ino.Rec(), fs.dev.blocks, fs.files) && i < |dir| && buf.Length == 32
      modifies fs.dev, buf
      ensures fs.dev.Valid() && fs.dev.pins == old(fs.dev.pins) && fs.dev.blocks == old(fs.dev.blocks)
      ensures old(fs.dev.Clean()) ==> fs.dev.Clean()
      ensures e == dir[i]
    {
      hide BlockCacheManager.Valid, DirOk, DecodeName, DecodeId, TreeOk, FileBytes, EncodeEntry;
      DirSize(fs.files, dir);
      var n := FileData.ReadAt(ino, DIRENT_SZ * i, buf, fs.dev, fs.files[0].ids, fs.files[0].data);
      assert n == DIRENT_SZ && buf[..] == buf[..n];
      StoredEntry(fs.files[0].data, dir, i);
      e := DirEnt(DecodeName(buf[..]), DecodeId(buf[..]));
    }

    /** `find_inode_id`: the entries are read one by one through a reused buffer, under the handle
        on the root inode. */
    method FindInodeId(name: Name, ino: DiskInode) returns (r: Option<u32>)
      requires fs.dev.Valid() && |fs.dev.pins| <= 15 && DirOk(fs.files, dir)
      requires IsRoot(ino.Rec(), fs.dev.blocks, fs.files)
      modifies fs.dev
      ensures fs.dev.Valid() && fs.dev.pins == old(fs.dev.pins) && fs.dev.blocks == old(fs.dev.blocks)
      ensures old(fs.dev.Clean()) ==> fs.dev.Clean()
      ensures r.None? <==> !HasName(dir, name)
      ensures r.Some? ==> exists i | 0 <= i < |dir| :: dir[i] == DirEnt(name, r.value)
    {
      hide BlockCacheManager.Valid, DirOk, TreeOk, FileBytes;
      DirSize(fs.files, dir);
      assert ino.isDir;
      var count := ino.size / DIRENT_SZ;
      var buf := new byte[32];
      for i := 0 to count
        invariant fs.dev.Valid() && fs.dev.pins == old(fs.dev.pins) && fs.dev.blocks == old(fs.dev.blocks)
        invariant (old(fs.dev.Clean()) ==> fs.dev.Clean()) && fresh(buf) && buf.Length == 32
        invariant forall j | 0 <= j < i :: dir[j].name != name
      {
        var e := ReadEntry(ino, i, buf);
        if e.name == name {
          return Some(e.id);
        }
      }
      r := None;
    }

    /** The lookup inside a `read_disk_inode` or `modify_disk_inode` closure of the root. */
    method Lookup(name: Name) returns (r: Option<u32>)
      requires Valid()
      modifies fs.dev
      ensures Valid() && fs.dev.blocks == old(fs.dev.blocks) && (old(fs.dev.Clean()) ==> fs.dev.Clean())
      ensures r.None? <==> !HasName(dir, name)
      ensures r.Some? ==> exists i | 0 <= i < |dir| :: dir[i] == DirEnt(name, r.value)
    {
      hide BlockCacheManager.Valid, VolumeOk, DirOk, InodeAt, TreeOk, FileBytes;
      DirSize(fs.files, dir);
      OwnIdsOf(fs, 0);
      var root := RootInode(fs);
      var ino := OpenSlot(fs.dev, root, 0);
      r := FindInodeId(name, ino);
      fs.dev.Release(root.blockId);
    }

    /** `find`: the handle of the inode created under that name. */
    method Find(name: Name) returns (r: Option<Inode>, ghost k: nat)
      requires Valid()
      modifies fs.dev
      ensures Valid() && fs.dev.blocks == old(fs.dev.blocks) && (old(fs.dev.Clean()) ==> fs.dev.Clean())
      ensures r.None? <==> !HasName(dir, name)
      ensures r.Some? ==> k < |dir| && dir[k].name == name && r.value == HandleOf(fs.geo, dir[k].id)
    {
      hide BlockCacheManager.Valid, VolumeOk, DirOk;
      k := 0;
      var found := Lookup(name);
      if found.None? {
        return None, 0;
      }
      k :| 0 <= k < |dir| && dir[k] == DirEnt(name, found.value);
      var h := HandleAt(fs, found.value);
      r := Some(h);
    }

    /** `ls`: the names in creation order. */
    method Ls() returns (names: seq<Name>)
      requires Valid()
      modifies fs.dev
      ensures Valid() && fs.dev.blocks == old(fs.dev.blocks) && (old(fs.dev.Clean()) ==> fs.dev.Clean())
      ensures |names| == |dir| && forall i | 0 <= i < |dir| :: names[i] == dir[i].name
    {
      hide BlockCacheManager.Valid, VolumeOk, DirOk, TreeOk, FileBytes, InodeAt;
      DirSize(fs.files, dir);
      OwnIdsOf(fs, 0);
      var root := RootInode(fs);
      var ino := OpenSlot(fs.dev, root, 0);
      names := [];
      for i := 0 to ino.size / DIRENT_SZ
        invariant fs.dev.Valid() && fs.dev.pins == multiset{root.blockId} && fs.dev.blocks == old(fs.dev.blocks)
        invariant (old(fs.dev.Clean()) ==> fs.dev.Clean()) && IsRoot(ino.Rec(), fs.dev.blocks, fs.files)
        invariant |names| == i && forall j | 0 <= j < i :: names[j] == dir[j].name
      {
        var buf := new byte[32];
        var e := ReadEntry(ino, i, buf);
        names := names + [e.name];
      }
      fs.dev.Release(root.blockId);
    }

    /** `create`: fails exactly on an existing name, and otherwise appends one empty file under
        the least free inode number. */
    method Create(name: Name) returns (r: Option<Inode>, ghost id: nat)
      requires Valid() && ValidName(name)
      requires !HasName(dir, name) ==>
                 && 32 * (|dir| + 1) <= MAX_FILE_SIZE && (exists i: nat | i < 4096 * fs.geo.ib :: i !in fs.files)
                 && |fs.owner.Keys| + Missing(fs.files[0], 32 * (|dir| + 1)) <= fs.geo.da
      modifies this, fs, fs.dev
      ensures Valid() && (old(fs.dev.Clean()) ==> fs.dev.Clean())
      ensures r.None? <==> HasName(old(dir), name)
      ensures r.None? ==> dir == old(dir) && fs.files == old(fs.files) && fs.owner == old(fs.owner)
      ensures r.Some? ==>
                && id == |old(dir)| + 1 && id !in old(fs.files) && r.value == HandleOf(fs.geo, id)
                && id < 0x1_0000_0000 && dir == old(dir) + [DirEnt(name, id)]
                && fs.files.Keys == old(fs.files.Keys) + {id} && fs.files[id] == File([], [], false)
                && (forall j | j in old(fs.files) && j != 0 :: fs.files[j] == old(fs.files)[j])
    {
      hide BlockCacheManager.Valid, VolumeOk, DirOk, EncodeEntry, ValidName, Overlay, Missing, HandleOf;
      var found := Lookup(name);
      if found.Some? {
        return None, 0;
      }
      DirSize(fs.files, dir);
      var newId := fs.NewInode(false);
      assert fs.files[0] == old(fs.files)[0];
      var root := RootInode(fs);
      var size := SizeOf(fs, root, 0);
      var count := size / DIRENT_SZ;
      assert count * DIRENT_SZ + 32 == 32 * (|dir| + 1);
      NextId(old(fs.files), dir, newId);
      NameFits(name);
      var n := Vfs.WriteAt(fs, root, count * DIRENT_SZ, EncodeEntry(DirEnt(name, newId)), 0);
      NewEntry(old(fs.files), dir, newId, name, fs.files[0]);
      SameMap(fs.files, old(fs.files)[newId := File([], [], false)][0 := fs.files[0]]);
      dir := dir + [DirEnt(name, newId)];
      var h := HandleAt(fs, newId);
      return Some(h), newId;
    }
  }

  lemma SameMap(a: map<nat, File>, b: map<nat, File>)
    requires a.Keys == b.Keys && forall k | k in a :: a[k] == b[k]
    ensures a == b
  {
  }

  lemma NameFits(name: Name)
    requires ValidName(name)
    ensures |name| <= 28
  {
  }

  lemma DirSize(files: map<nat, File>, dir: seq<DirEnt>)
    requires DirOk(files, dir)
    ensures 0 in files && files[0].isDir && |files[0].data| == 32 * |dir| && Encodes(files[0].data, dir)
  {
  }

  /** The least free inode number is the next one, so it fits the 32 bits of an entry. */
  lemma NextId(files: map<nat, File>, dir: seq<DirEnt>, id: nat)
    requires DirOk(files, dir) && id !in files && forall i: nat | i < id :: i in files
    ensures id == |dir| + 1
  {
    hide Encodes, DistinctEntries;
    assert |dir| + 1 !in files;
    forall i: nat | i <= |dir| ensures i in files {
      if i > 0 {
        assert dir[i - 1].id == i;
      }
    }
  }

  /** The bytes of the root directory determine its entries. */
  lemma DirDetermined(files: map<nat, File>, dir: seq<DirEnt>, dir': seq<DirEnt>)
    requires DirOk(files, dir) && DirOk(files, dir')
    ensures dir == dir'
  {
    hide EncodeEntry, DecodeName, DecodeId, ValidName;
    forall i | 0 <= i < |dir| ensures dir[i] == dir'[i] {
      StoredEntry(files[0].data, dir, i);
      StoredEntry(files[0].data, dir', i);
    }
  }

  /** `root_inode` */
  method RootInode(fs: EasyFileSystem) returns (h: Inode)
    requires fs.Fields()
    ensures h == HandleOf(fs.geo, 0)
  {
    h := HandleAt(fs, 0);
  }

  method HandleAt(fs: EasyFileSystem, id: nat) returns (h: Inode)
    requires fs.Fields()
    ensures h == HandleOf(fs.geo, id)
  {
    var block, offset := fs.GetDiskInodePos(id);
    h := Inode(block, offset);
  }

  /** `read_disk_inode(|inode| inode.size)` */
  method SizeOf(fs: EasyFileSystem, h: Inode, ghost id: nat) returns (size: nat)
    requires fs.Valid() && id in fs.files && h == HandleOf(fs.geo, id)
    modifies fs.dev
    ensures fs.Valid() && fs.dev.blocks == old(fs.dev.blocks) && size == |fs.files[id].data|
    ensures old(fs.dev.Clean()) ==> fs.dev.Clean()
  {
    hide BlockCacheManager.Valid, VolumeOk, TreeOk, FileBytes, InodeAt;
    OwnIdsOf(fs, id);
    var b := fs.dev.Read(h.blockId);
    size := InodeAt(b, h.blockOffset / INODE_SIZE).size;
  }
}
