/** Whole histories: easy-fs refines an insertion-ordered map from names to byte strings. */
module History {
  import opened Basics
  import opened Bytes
  import opened BlockCache
  import opened Layout
  import opened FileData
  import opened Codec
  import opened Volume
  import opened Efs
  import opened Vfs
  import opened Directory

  /** The abstract file system: names with their contents, in creation order. */
  type Listing = seq<(Name, seq<byte>)>

  datatype Op =
    | Create(name: Name)
    | Write(name: Name, offset: nat, buf: seq<byte>)
    | Clear(name: Name)
    | Read(name: Name, offset: nat, len: nat)
    | Find(name: Name)
    | Ls

  /** `Found` carries the inode number that the position returned by `find` stands for. */
  datatype Outcome = NotFound | Exists | Done | Found(number: nat) | Data(bytes: seq<byte>) | Names(names: seq<Name>)

  /** Position of a name, or the length of the listing. */
  function IndexOf(l: Listing, name: Name): (k: nat)
    ensures k <= |l| && (k < |l| ==> l[k].0 == name)
    ensures forall i | 0 <= i < k :: l[i].0 != name
  {
    if l == [] then 0
    else if IndexOf(l[..|l| - 1], name) < |l| - 1 then IndexOf(l[..|l| - 1], name)
    else if l[|l| - 1].0 == name then |l| - 1 else |l|
  }

  function NamesOf(l: Listing): (r: seq<Name>)
    ensures |r| == |l| && forall i | 0 <= i < |l| :: r[i] == l[i].0
  {
    if l == [] then [] else NamesOf(l[..|l| - 1]) + [l[|l| - 1].0]
  }

  /** What each operation means on the map. */
  function Step(l: Listing, op: Op): (Listing, Outcome) {
    match op
    case Create(name) => if IndexOf(l, name) < |l| then (l, Exists) else (l + [(name, [])], Done)
    case Write(name, offset, buf) =>
      var k := IndexOf(l, name);
      if k == |l| then (l, NotFound) else (l[k := (name, Overlay(l[k].1, offset, buf))], Done)
    case Clear(name) =>
      var k := IndexOf(l, name);
      if k == |l| then (l, NotFound) else (l[k := (name, [])], Done)
    case Read(name, offset, len) =>
      var k := IndexOf(l, name);
      if k == |l| then (l, NotFound)
      else if offset >= |l[k].1| then (l, Data([]))
      else (l, Data(l[k].1[offset..offset + Min(len, |l[k].1| - offset)]))
    case Find(name) => if IndexOf(l, name) == |l| then (l, NotFound) else (l, Found(IndexOf(l, name) + 1))
    case Ls => (l, Names(NamesOf(l)))
  }

  /** Data and index blocks of the files of a listing. */
  function FileBlocks(l: Listing): nat {
    if l == [] then 0 else FileBlocks(l[..|l| - 1]) + TotalBlocks(|l[|l| - 1].1|)
  }

  /** All blocks in use: those of the directory and those of the files. */
  function UsedBlocks(l: Listing): nat {
    TotalBlocks(32 * |l|) + FileBlocks(l)
  }

  /** What the source asks of its callers: fitting names, file sizes and a disk with enough room. */
  ghost predicate Legal(l: Listing, g: Geo, op: Op) {
    var l' := Step(l, op).0;
    match op
    case Create(name) =>
      ValidName(name) && (IndexOf(l, name) == |l| ==>
        32 * |l'| <= MAX_FILE_SIZE && UsedBlocks(l') <= g.da && |l'| < 4096 * g.ib)
    case Write(name, offset, buf) =>
      IndexOf(l, name) < |l| ==>
        && offset + |buf| <= MAX_FILE_SIZE && UsedBlocks(l') <= g.da
        && (|buf| > 0 || offset % 512 != 0 || offset < |l[IndexOf(l, name)].1| || !Hole(offset / 512))
    case _ => true
  }

  /** The map a mounted volume stands for. */
  ghost function Abs(files: map<nat, File>, dir: seq<DirEnt>): (l: Listing)
    ensures |l| == |dir|
    ensures forall i | 0 <= i < |dir| :: l[i] == (dir[i].name, if dir[i].id in files then files[dir[i].id].data else [])
  {
    if dir == [] then [] else
      var e := dir[|dir| - 1];
      Abs(files, dir[..|dir| - 1]) + [(e.name, if e.id in files then files[e.id].data else [])]
  }

  // The number of used blocks is a function of the map.

  lemma {:induction false} SumAdd(files: map<nat, File>, s: set<nat>, id: nat)
    requires s <= files.Keys && id in files && id !in s
    ensures SumTotals(files, s + {id}) == TotalBlocks(|files[id].data|) + SumTotals(files, s)
    decreases |s|
  {
    hide TotalBlocks;
    var t := s + {id};
    var x :| x in t && SumTotals(files, t) == TotalBlocks(|files[x].data|) + SumTotals(files, t - {x});
    if x == id {
      assert t - {x} == s;
    } else {
      assert t - {x} == (s - {x}) + {id};
      SumAdd(files, s - {x}, id);
      assert (s - {x}) + {x} == s;
      SumAdd(files, s - {x}, x);
    }
  }

  ghost function Ids(dir: seq<DirEnt>): set<nat> {
    set e | e in dir :: e.id as nat
  }

  lemma {:induction false} IdsSnoc(dir: seq<DirEnt>)
    requires dir != []
    ensures Ids(dir) == Ids(dir[..|dir| - 1]) + {dir[|dir| - 1].id as nat}
  {
    var init, e := dir[..|dir| - 1], dir[|dir| - 1];
    forall x ensures x in Ids(dir) <==> x in Ids(init) || x == e.id {
      assert dir == init + [e];
      if x == e.id {
        assert e in dir;
      }
    }
  }

  lemma {:induction false} FileBlocksSnoc(l: Listing, p: (Name, seq<byte>))
    ensures FileBlocks(l + [p]) == FileBlocks(l) + TotalBlocks(|p.1|)
  {
    hide TotalBlocks;
    assert (l + [p])[..|l|] == l;
  }

  lemma {:induction false} FreshLast(dir: seq<DirEnt>)
    requires DistinctEntries(dir) && dir != []
    ensures DistinctEntries(dir[..|dir| - 1]) && dir[|dir| - 1].id as nat !in Ids(dir[..|dir| - 1])
  {
  }

  lemma {:induction false} SumOfDir(files: map<nat, File>, dir: seq<DirEnt>)
    requires DistinctEntries(dir) && 0 in files
    requires forall i | 0 <= i < |dir| :: dir[i].id != 0 && dir[i].id in files
    ensures {0} + Ids(dir) <= files.Keys
    ensures SumTotals(files, {0} + Ids(dir)) == TotalBlocks(|files[0].data|) + FileBlocks(Abs(files, dir))
    decreases |dir|
  {
    hide TotalBlocks, SumTotals, DistinctEntries;
    if dir == [] {
      hide FileBlocks;
      assert {0} + Ids(dir) == {} + {0};
      SumAdd(files, {}, 0);
      SumNone(files);
    } else {
      hide FileBlocks, Ids;
      var init, e := dir[..|dir| - 1], dir[|dir| - 1];
      FreshLast(dir);
      SumOfDir(files, init);
      IdsSnoc(dir);
      assert {0} + Ids(dir) == ({0} + Ids(init)) + {e.id as nat};
      SumAdd(files, {0} + Ids(init), e.id);
      FileBlocksSnoc(Abs(files, init), (e.name, files[e.id].data));
    }
  }

  lemma {:induction false} SumNone(files: map<nat, File>)
    ensures SumTotals(files, {}) == 0 && FileBlocks([]) == 0
  {
  }

  lemma {:induction false} UsedIsFunctionOfMap(d: seq<Block>, g: Geo, files: map<nat, File>, owner: map<nat, nat>,
            dir: seq<DirEnt>)
    requires VolumeOk(d, g, files, owner) && DirOk(files, dir)
    ensures |owner.Keys| == UsedBlocks(Abs(files, dir))
  {
    hide VolumeOk, Encodes, TotalBlocks, FileBlocks, Abs;
    UsedIsSumOfTotals(d, g, files, owner);
    SumOfDir(files, dir);
    assert files.Keys == {0} + Ids(dir) by {
      forall id | id in files && id != 0 ensures id in Ids(dir) {
        var i :| 0 <= i < |dir| && dir[i].id == id;
        assert dir[i] in dir;
      }
    }
    DirSize(files, dir);
  }

  /** Changing one listed file changes one pair. */
  lemma {:induction false} AbsUpdate(files: map<nat, File>, dir: seq<DirEnt>, k: nat, files': map<nat, File>)
    requires DistinctEntries(dir) && k < |dir|
    requires forall i | 0 <= i < |dir| :: dir[i].id in files && dir[i].id in files'
    requires forall i | 0 <= i < |dir| && i != k :: files'[dir[i].id].data == files[dir[i].id].data
    ensures Abs(files', dir) == Abs(files, dir)[k := (dir[k].name, files'[dir[k].id].data)]
  {
  }

  lemma {:induction false} FileBlocksUpdate(l: Listing, k: nat, p: (Name, seq<byte>))
    requires k < |l|
    ensures FileBlocks(l[k := p]) == FileBlocks(l) - TotalBlocks(|l[k].1|) + TotalBlocks(|p.1|)
    decreases |l|
  {
    hide TotalBlocks;
    var l' := l[k := p];
    if k == |l| - 1 {
      assert l'[..|l| - 1] == l[..|l| - 1];
    } else {
      assert l'[..|l| - 1] == l[..|l| - 1][k := p];
      FileBlocksUpdate(l[..|l| - 1], k, p);
    }
  }

  lemma {:induction false} FindIndex(dir: seq<DirEnt>, files: map<nat, File>, name: Name, k: nat)
    requires DistinctEntries(dir) && k < |dir| && dir[k].name == name
    ensures IndexOf(Abs(files, dir), name) == k
  {
  }

  lemma {:induction false} NoIndex(dir: seq<DirEnt>, files: map<nat, File>, name: Name)
    ensures HasName(dir, name) <==> IndexOf(Abs(files, dir), name) < |dir|
  {
    var l := Abs(files, dir);
    var k := IndexOf(l, name);
    if k < |dir| {
      assert dir[k].name == name;
    }
  }

  /** The free space in terms of the map. */
  lemma {:induction false} RoomFor(files: map<nat, File>, g: Geo, owner: map<nat, nat>, dir: seq<DirEnt>, k: nat,
            size: nat, p: (Name, seq<byte>))
    requires DirOk(files, dir) && k < |dir| && |owner.Keys| == UsedBlocks(Abs(files, dir))
    requires p.0 == dir[k].name && |p.1| == if size < |files[dir[k].id].data| then |files[dir[k].id].data| else size
    requires UsedBlocks(Abs(files, dir)[k := p]) <= g.da
    ensures |owner.Keys| + Missing(files[dir[k].id], size) <= g.da
  {
    hide TotalBlocks, DirOk, FileBlocks, Abs;
    FoundEntry(files, dir, k);
    FileBlocksUpdate(Abs(files, dir), k, p);
  }

  lemma {:induction false} RoomForEntry(files: map<nat, File>, g: Geo, owner: map<nat, nat>, dir: seq<DirEnt>,
            p: (Name, seq<byte>))
    requires DirOk(files, dir) && |owner.Keys| == UsedBlocks(Abs(files, dir)) && p.1 == []
    requires UsedBlocks(Abs(files, dir) + [p]) <= g.da
    ensures |owner.Keys| + Missing(files[0], 32 * (|dir| + 1)) <= g.da
  {
    hide TotalBlocks, Encodes;
    DirSize(files, dir);
    var l := Abs(files, dir) + [p];
    assert l[..|l| - 1] == Abs(files, dir);
    assert TotalBlocks(0) == 0 by { NoBlocks(); }
  }

  lemma {:induction false} NoBlocks()
    ensures TotalBlocks(0) == 0
  {
  }

  /** Fewer inodes than bits leave a free inode number. */
  lemma {:induction false} FreeInode(files: map<nat, File>, dir: seq<DirEnt>, n: nat)
    requires DirOk(files, dir) && |dir| + 1 < n
    ensures exists i: nat | i < n :: i !in files
  {
    hide Encodes, DistinctEntries;
    assert |dir| + 1 !in files;
  }

  /** One operation, as a program would issue it: look the name up, then act through the handle. */
  method Exec(root: FileSystem, op: Op) returns (out: Outcome)
    requires root.Valid() && Legal(Abs(root.fs.files, root.dir), root.fs.geo, op)
    modifies root, root.fs, root.fs.dev
    ensures root.Valid() && (old(root.fs.dev.Clean()) ==> root.fs.dev.Clean())
    ensures (Abs(root.fs.files, root.dir), out) == Step(old(Abs(root.fs.files, root.dir)), op)
  {
    hide FileSystem.Valid, Step, Legal, Abs;
    match op {
      case Create(name) => out := ExecCreate(root, name);
      case Write(name, offset, buf) => out := ExecWrite(root, name, offset, buf);
      case Clear(name) => out := ExecClear(root, name);
      case Read(name, offset, len) => out := ExecRead(root, name, offset, len);
      case Find(name) => out := ExecFind(root, name);
      case Ls => out := ExecLs(root);
    }
  }

  method ExecCreate(root: FileSystem, name: Name) returns (out: Outcome)
    requires root.Valid() && Legal(Abs(root.fs.files, root.dir), root.fs.geo, Create(name))
    modifies root, root.fs, root.fs.dev
    ensures root.Valid() && (old(root.fs.dev.Clean()) ==> root.fs.dev.Clean())
    ensures (Abs(root.fs.files, root.dir), out) == Step(old(Abs(root.fs.files, root.dir)), Create(name))
  {
    hide BlockCacheManager.Valid, VolumeOk, DirOk, UsedBlocks, Missing, IndexOf, Abs, HandleOf, ValidName;
    ghost var files, dir := root.fs.files, root.dir;
    UsedIsFunctionOfMap(root.fs.dev.blocks, root.fs.geo, files, root.fs.owner, dir);
    NoIndex(dir, files, name);
    if !HasName(dir, name) {
      FreeInode(files, dir, 4096 * root.fs.geo.ib);
      RoomForEntry(files, root.fs.geo, root.fs.owner, dir, (name, []));
    }
    var r, id := root.Create(name);
    out := if r.None? then Exists else Done;
    if r.Some? {
      AbsAppend(files, dir, root.fs.files, DirEnt(name, id));
    }
  }

  lemma {:induction false} AbsAppend(files: map<nat, File>, dir: seq<DirEnt>, files': map<nat, File>, e: DirEnt)
    requires DirOk(files, dir) && e.id in files' && files'[e.id].data == []
    requires forall j | j in files && j != 0 :: j in files' && files'[j] == files[j]
    ensures Abs(files', dir + [e]) == Abs(files, dir) + [(e.name, [])]
  {
    hide Encodes, DistinctEntries;
  }

  method ExecClear(root: FileSystem, name: Name) returns (out: Outcome)
    requires root.Valid()
    modifies root, root.fs, root.fs.dev
    ensures root.Valid() && (old(root.fs.dev.Clean()) ==> root.fs.dev.Clean())
    ensures (Abs(root.fs.files, root.dir), out) == Step(old(Abs(root.fs.files, root.dir)), Clear(name))
  {
    hide BlockCacheManager.Valid, VolumeOk, Encodes, IndexOf, Abs, HandleOf, Blocks;
    ghost var files, dir := root.fs.files, root.dir;
    NoIndex(dir, files, name);
    var h, k := root.Find(name);
    if h.None? {
      return NotFound;
    }
    FindIndex(dir, files, name, k);
    Vfs.Clear(root.fs, h.value, dir[k].id);
    AbsUpdate(files, dir, k, root.fs.files);
    out := Done;
  }

  method ExecRead(root: FileSystem, name: Name, offset: nat, len: nat) returns (out: Outcome)
    requires root.Valid()
    modifies root.fs.dev
    ensures root.Valid() && (old(root.fs.dev.Clean()) ==> root.fs.dev.Clean())
    ensures (Abs(root.fs.files, root.dir), out) == Step(old(Abs(root.fs.files, root.dir)), Read(name, offset, len))
  {
    hide BlockCacheManager.Valid, VolumeOk, DirOk, IndexOf, Abs, HandleOf;
    ghost var files, dir := root.fs.files, root.dir;
    NoIndex(dir, files, name);
    var h, k := root.Find(name);
    if h.None? {
      return NotFound;
    }
    FoundEntry(files, dir, k);
    FindIndex(dir, files, name, k);
    var buf := new byte[len];
    var n := Vfs.ReadAt(root.fs, h.value, offset, buf, dir[k].id);
    ghost var data := files[dir[k].id].data;
    assert buf[..n] == if offset >= |data| then [] else data[offset..offset + n];
    out := Data(buf[..n]);
  }

  lemma {:induction false} FoundEntry(files: map<nat, File>, dir: seq<DirEnt>, k: nat)
    requires DirOk(files, dir) && k < |dir|
    ensures DistinctEntries(dir) && dir[k].id in files && Abs(files, dir)[k] == (dir[k].name, files[dir[k].id].data)
  {
    hide Encodes;
  }

  method ExecFind(root: FileSystem, name: Name) returns (out: Outcome)
    requires root.Valid()
    modifies root.fs.dev
    ensures root.Valid() && (old(root.fs.dev.Clean()) ==> root.fs.dev.Clean())
    ensures (Abs(root.fs.files, root.dir), out) == Step(old(Abs(root.fs.files, root.dir)), Find(name))
  {
    hide BlockCacheManager.Valid, VolumeOk, Encodes, IndexOf, Abs;
    ghost var files, dir := root.fs.files, root.dir;
    NoIndex(dir, files, name);
    var h, k := root.Find(name);
    if h.None? {
      return NotFound;
    }
    FindIndex(dir, files, name, k);
    out := Found((h.value.blockId - root.fs.inodeAreaStart) * 4 + h.value.blockOffset / INODE_SIZE);
  }

  method ExecLs(root: FileSystem) returns (out: Outcome)
    requires root.Valid()
    modifies root.fs.dev
    ensures root.Valid() && (old(root.fs.dev.Clean()) ==> root.fs.dev.Clean())
    ensures (Abs(root.fs.files, root.dir), out) == Step(old(Abs(root.fs.files, root.dir)), Ls)
  {
    hide BlockCacheManager.Valid, VolumeOk, DirOk, Abs, NamesOf;
    var names := root.Ls();
    assert names == NamesOf(Abs(root.fs.files, root.dir));
    out := Names(names);
  }

  method ExecWrite(root: FileSystem, name: Name, offset: nat, buf: seq<byte>) returns (out: Outcome)
    requires root.Valid() && Legal(Abs(root.fs.files, root.dir), root.fs.geo, Write(name, offset, buf))
    modifies root, root.fs, root.fs.dev
    ensures root.Valid() && (old(root.fs.dev.Clean()) ==> root.fs.dev.Clean())
    ensures (Abs(root.fs.files, root.dir), out) == Step(old(Abs(root.fs.files, root.dir)), Write(name, offset, buf))
  {
    hide BlockCacheManager.Valid, VolumeOk, Overlay, UsedBlocks, Missing, Encodes, IndexOf, Abs, HandleOf;
    ghost var files, dir := root.fs.files, root.dir;
    UsedIsFunctionOfMap(root.fs.dev.blocks, root.fs.geo, files, root.fs.owner, dir);
    NoIndex(dir, files, name);
    var h, k := root.Find(name);
    if h.None? {
      return NotFound;
    }
    FindIndex(dir, files, name, k);
    ghost var id := dir[k].id;
    RoomFor(files, root.fs.geo, root.fs.owner, dir, k, offset + |buf|, (name, Overlay(files[id].data, offset, buf)));
    var n := Vfs.WriteAt(root.fs, h.value, offset, buf, id);
    AbsUpdate(files, dir, k, root.fs.files);
    out := Done;
  }

  /** The map and the outcomes after a whole history. */
  function Replay(l: Listing, ops: seq<Op>): (Listing, seq<Outcome>)
    decreases |ops|
  {
    if ops == [] then (l, []) else
      var (l', o) := Step(l, ops[0]);
      var (l'', os) := Replay(l', ops[1..]);
      (l'', [o] + os)
  }

  // What a history leaves behind, read off its calls from the last one back.

  lemma {:induction false} ReplaySnoc(l: Listing, ops: seq<Op>, op: Op)
    ensures Replay(l, ops + [op]).0 == Step(Replay(l, ops).0, op).0
    ensures Replay(l, ops + [op]).1 == Replay(l, ops).1 + [Step(Replay(l, ops).0, op).1]
    decreases |ops|
  {
    hide Step;
    var all := ops + [op];
    if ops == [] {
      assert all[0] == op && all[1..] == [];
    } else {
      assert all[0] == ops[0] && all[1..] == ops[1..] + [op];
      ReplaySnoc(Step(l, ops[0]).0, ops[1..], op);
    }
  }

  /** The byte of a file at position `p`; 0 behind its end. */
  function ByteAt(l: Listing, name: Name, p: nat): byte {
    var k := IndexOf(l, name);
    if k < |l| && p < |l[k].1| then l[k].1[p] else 0
  }

  function SizeOf(l: Listing, name: Name): nat {
    var k := IndexOf(l, name);
    if k < |l| then |l[k].1| else 0
  }

  /** What the last write over position `p`, or the last clear, left there. */
  function LastByte(before: byte, ops: seq<Op>, name: Name, p: nat): byte {
    if ops == [] then before
    else
      var op := ops[|ops| - 1];
      if op.Write? && op.name == name && op.offset <= p < op.offset + |op.buf| then op.buf[p - op.offset]
      else if op == Clear(name) then 0
      else LastByte(before, ops[..|ops| - 1], name, p)
  }

  /** The furthest end of a write since the last clear. */
  function LastSize(before: nat, ops: seq<Op>, name: Name): nat {
    if ops == [] then before
    else
      var op, size := ops[|ops| - 1], LastSize(before, ops[..|ops| - 1], name);
      if op.Write? && op.name == name && op.offset + |op.buf| > size then op.offset + |op.buf|
      else if op == Clear(name) then 0
      else size
  }

  lemma {:induction false} SameIndex(l: Listing, l': Listing, name: Name)
    requires |l| <= |l'| && forall i | 0 <= i < |l| :: l'[i].0 == l[i].0
    ensures IndexOf(l, name) < |l| ==> IndexOf(l', name) == IndexOf(l, name)
  {
  }

  lemma StepByte(l: Listing, op: Op, name: Name, p: nat)
    requires IndexOf(l, name) < |l|
    ensures IndexOf(Step(l, op).0, name) < |Step(l, op).0|
    ensures ByteAt(Step(l, op).0, name, p) == LastByte(ByteAt(l, name, p), [op], name, p)
    ensures SizeOf(Step(l, op).0, name) == LastSize(SizeOf(l, name), [op], name)
  {
    hide IndexOf;
    assert [op][..0] == [];
    SameIndex(l, Step(l, op).0, name);
  }

  /** After any history each position of a file holds what the last write over it or the last clear
      left, and the file ends where the furthest write since the last clear ended. */
  lemma {:induction false} LastByteCounts(l: Listing, ops: seq<Op>, name: Name, p: nat)
    requires IndexOf(l, name) < |l|
    ensures var l' := Replay(l, ops).0;
            && IndexOf(l', name) < |l'|
            && ByteAt(l', name, p) == LastByte(ByteAt(l, name, p), ops, name, p)
            && SizeOf(l', name) == LastSize(SizeOf(l, name), ops, name)
  {
    hide Step, IndexOf, ByteAt, SizeOf;
    if ops != [] {
      var init, op := ops[..|ops| - 1], ops[|ops| - 1];
      assert ops == init + [op];
      LastByteCounts(l, init, name, p);
      ReplaySnoc(l, init, op);
      StepByte(Replay(l, init).0, op, name, p);
      assert [op][..0] == [];
    }
  }

  function Final(outs: seq<Outcome>): Outcome
    requires outs != []
  {
    outs[|outs| - 1]
  }

  /** A read at the end of any history returns, up to the end of the file, at each position what the
      last write over it or the last clear left there. */
  lemma ReadAfter(l: Listing, ops: seq<Op>, name: Name, offset: nat, len: nat)
    requires IndexOf(l, name) < |l|
    ensures
      var outs := Replay(l, ops + [Read(name, offset, len)]).1;
      var size := LastSize(SizeOf(l, name), ops, name);
      && outs != [] && Final(outs).Data?
      && |Final(outs).bytes| == (if offset >= size then 0 else Min(len, size - offset))
      && forall p | offset <= p < offset + |Final(outs).bytes| ::
           Final(outs).bytes[p - offset] == LastByte(ByteAt(l, name, p), ops, name, p)
  {
    hide IndexOf, LastByte, LastSize, Replay;
    ReplaySnoc(l, ops, Read(name, offset, len));
    var l' := Replay(l, ops).0;
    LastByteCounts(l, ops, name, 0);
    forall p | offset <= p < SizeOf(l', name)
      ensures l'[IndexOf(l', name)].1[p] == LastByte(ByteAt(l, name, p), ops, name, p)
    {
      LastByteCounts(l, ops, name, p);
    }
  }

  /** The names there were, and then those created, each once, in order. */
  function CreatedNames(names: seq<Name>, ops: seq<Op>): seq<Name> {
    if ops == [] then names
    else
      var op, before := ops[|ops| - 1], CreatedNames(names, ops[..|ops| - 1]);
      if op.Create? && op.name !in before then before + [op.name] else before
  }

  lemma StepNames(l: Listing, op: Op)
    ensures NamesOf(Step(l, op).0) ==
            if op.Create? && op.name !in NamesOf(l) then NamesOf(l) + [op.name] else NamesOf(l)
  {
    hide NamesOf;
    var l', names := Step(l, op).0, NamesOf(l);
    if op.Create? {
      hide IndexOf;
      if IndexOf(l, op.name) < |l| {
        assert names[IndexOf(l, op.name)] == op.name;
      }
    }
    assert forall i | 0 <= i < |l| :: NamesOf(l')[i] == names[i];
  }

  lemma {:induction false} NamesAfter(l: Listing, ops: seq<Op>)
    ensures NamesOf(Replay(l, ops).0) == CreatedNames(NamesOf(l), ops)
    ensures var outs := Replay(l, ops + [Ls]).1; outs != [] && Final(outs) == Names(CreatedNames(NamesOf(l), ops))
  {
    hide NamesOf;
    if ops != [] {
      var init, op := ops[..|ops| - 1], ops[|ops| - 1];
      assert ops == init + [op];
      NamesAfter(l, init);
      hide Step;
      ReplaySnoc(l, init, op);
      StepNames(Replay(l, init).0, op);
    }
    ReplaySnoc(l, ops, Ls);
    LsNames(Replay(l, ops).0);
  }

  lemma LsNames(l: Listing)
    ensures Step(l, Ls).1 == Names(NamesOf(l))
  {
  }

  ghost predicate LegalRun(l: Listing, g: Geo, ops: seq<Op>)
    decreases |ops|
  {
    ops == [] || (Legal(l, g, ops[0]) && LegalRun(Step(l, ops[0]).0, g, ops[1..]))
  }

  /** Refinement over every history: every outcome and the final state are those of the map, and
      the volume invariant holds throughout. */
  method Run(root: FileSystem, ops: seq<Op>) returns (outs: seq<Outcome>)
    requires root.Valid() && LegalRun(Abs(root.fs.files, root.dir), root.fs.geo, ops)
    modifies root, root.fs, root.fs.dev
    ensures root.Valid() && (old(root.fs.dev.Clean()) ==> root.fs.dev.Clean())
    ensures (Abs(root.fs.files, root.dir), outs) == Replay(old(Abs(root.fs.files, root.dir)), ops)
  {
    hide FileSystem.Valid, Abs, Step, Legal;
    ghost var l0 := Abs(root.fs.files, root.dir);
    outs := [];
    assert ops[0..] == ops;
    for i := 0 to |ops|
      invariant root.Valid() && (old(root.fs.dev.Clean()) ==> root.fs.dev.Clean())
      invariant LegalRun(Abs(root.fs.files, root.dir), root.fs.geo, ops[i..])
      invariant Replay(l0, ops).0 == Replay(Abs(root.fs.files, root.dir), ops[i..]).0
      invariant Replay(l0, ops).1 == outs + Replay(Abs(root.fs.files, root.dir), ops[i..]).1
    {
      assert ops[i..][1..] == ops[i + 1..];
      var o := Exec(root, ops[i]);
      outs := outs + [o];
    }
    assert ops[|ops|..] == [] && outs + [] == outs;
  }

  /** The map is read off the disk: whatever geometry, files and entries fit its blocks, they stand for
      the same map. */
  lemma MapDetermined(d: seq<Block>, g: Geo, files: map<nat, File>, owner: map<nat, nat>, dir: seq<DirEnt>,
                      g': Geo, files': map<nat, File>, owner': map<nat, nat>, dir': seq<DirEnt>)
    requires VolumeOk(d, g, files, owner) && DirOk(files, dir)
    requires VolumeOk(d, g', files', owner') && DirOk(files', dir')
    ensures g == g' && Abs(files, dir) == Abs(files', dir')
  {
    hide VolumeOk, DirOk, Abs;
    VolumeDetermined(d, g, files, owner, g', files', owner');
    DirDetermined(files, dir, dir');
  }

  /** Mounting the bare device anew: a cleared cache, geometry and files as found on the disk. */
  method Remount(root: FileSystem) returns (again: FileSystem)
    requires root.Valid() && root.fs.dev.Clean()
    ensures again.Valid() && fresh(again) && fresh(again.fs) && fresh(again.fs.dev) && again.fs.dev.Clean()
    ensures again.fs.dev.device == root.fs.dev.device
    ensures again.fs.geo == root.fs.geo && Abs(again.fs.files, again.dir) == Abs(root.fs.files, root.dir)
    ensures forall g, files, owner, dir | VolumeOk(again.fs.dev.device, g, files, owner) && DirOk(files, dir) ::
              g == root.fs.geo && Abs(files, dir) == Abs(root.fs.files, root.dir)
  {
    hide VolumeOk, DirOk, Abs;
    var dev := new BlockCacheManager(root.fs.dev.device);
    var fs := new EasyFileSystem.Open(dev, root.fs.geo, root.fs.files, root.fs.owner);
    again := new FileSystem.Mount(fs, root.dir);
    ghost var disk := again.fs.dev.device;
    forall g, files, owner, dir | VolumeOk(disk, g, files, owner) && DirOk(files, dir)
      ensures g == root.fs.geo && Abs(files, dir) == Abs(root.fs.files, root.dir)
    {
      MapDetermined(disk, g, files, owner, dir, root.fs.geo, root.fs.files, root.fs.owner, root.dir);
    }
  }

  /** Every history of a freshly made disk, whatever the device held before, and what a new mount
      of the device then finds. */
  method FromScratch(dev: BlockCacheManager, total: u32, ib: u32, ops: seq<Op>)
    returns (outs: seq<Outcome>, root: FileSystem, again: FileSystem)
    requires dev.Valid() && dev.pins == multiset{} && total <= |dev.blocks|
    requires 1 <= ib && total >= 1 + ib + (ib * 4096 * 128 + 511) / 512
    requires LegalRun([], Plan(total, ib), ops)
    modifies dev
    ensures root.Valid() && root.fs.dev == dev && root.fs.geo == Plan(total, ib) && dev.Clean()
    ensures (Abs(root.fs.files, root.dir), outs) == Replay([], ops)
    ensures again.Valid() && again.fs.dev != dev && fresh(again.fs.dev) && again.fs.dev.device == dev.device
    ensures Abs(again.fs.files, again.dir) == Replay([], ops).0
  {
    hide BlockCacheManager.Valid, VolumeOk, Legal, Step;
    var fs := new EasyFileSystem.Create(dev, total, ib);
    root := new FileSystem.Mount(fs, []);
    assert Abs(root.fs.files, root.dir) == [];
    outs := Run(root, ops);
    again := Remount(root);
  }
}
