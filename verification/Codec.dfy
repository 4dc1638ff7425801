/** The on-disk byte formats of easy-fs/src/layout.rs: inode slots, the superblock and directory
    entries. */
module Codec {
  import opened Bytes
  import opened Layout

  /** Words laid out one after another. */
  function WordsBytes(ws: seq<u32>): (s: seq<byte>)
    ensures |s| == 4 * |ws|
  {
    if ws == [] then [] else WordsBytes(ws[..|ws| - 1]) + U32Bytes(ws[|ws| - 1])
  }

  lemma {:induction false} WordsBytesAt(ws: seq<u32>, i: nat)
    requires i < |ws|
    ensures U32At(WordsBytes(ws), 4 * i) == ws[i]
    decreases |ws|
  {
    var init, last := ws[..|ws| - 1], ws[|ws| - 1];
    var s := WordsBytes(ws);
    if i == |ws| - 1 {
      U32RoundTrip(last);
      U32AtLocal(s, 4 * i, U32Bytes(last), 0);
    } else {
      WordsBytesAt(init, i);
      U32AtLocal(s, 4 * i, WordsBytes(init), 4 * i);
    }
  }

  /** The words of a run that was spliced into a block. */
  lemma {:induction false} SplicedWord(b: Block, off: nat, ws: seq<u32>, tail: seq<byte>, i: nat)
    requires off + 4 * |ws| + |tail| <= 512 && i < |ws|
    ensures U32At(Splice(b, off, WordsBytes(ws) + tail), off + 4 * i) == ws[i]
  {
    hide U32At, WordsBytes;
    WordsBytesAt(ws, i);
    U32AtLocal(Splice(b, off, WordsBytes(ws) + tail), off + 4 * i, WordsBytes(ws), 4 * i);
  }

  // A `DiskInode` takes 128 bytes: 31 words, the one-byte type and three bytes of padding.

  const INODE_SIZE: nat := 128
  const INODES_PER_BLOCK: nat := 4

  function InodeWords(r: InodeRec): seq<u32> {
    [r.size] + r.direct + [r.ind1, r.ind2]
  }

  /** The inode in slot `s` of an inode block. */
  function InodeAt(b: Block, s: nat): (r: InodeRec)
    requires s < 4
    ensures |r.direct| == 28
  {
    InodeRec(Word(b, 32 * s), WordRun(b, 32 * s + 1, 28),
             Word(b, 32 * s + 29), Word(b, 32 * s + 30), b[128 * s + 124] == 1)
  }

  function PutInode(b: Block, s: nat, r: InodeRec): Block
    requires s < 4 && |r.direct| == 28
  {
    Splice(b, 128 * s, WordsBytes(InodeWords(r)) + [if r.isDir then 1 else 0])
  }

  /** A slot holds what was stored in it, each field at its offset. */
  lemma InodeRoundTrip(b: Block, s: nat, r: InodeRec)
    requires s < 4 && |r.direct| == 28
    ensures InodeAt(PutInode(b, s, r), s) == r
    ensures
      var b', at := PutInode(b, s, r), 128 * s;
      && U32At(b', at) == r.size && (forall i | 0 <= i < 28 :: U32At(b', at + 4 + 4 * i) == r.direct[i])
      && U32At(b', at + 116) == r.ind1 && U32At(b', at + 120) == r.ind2 && b'[at + 124] == if r.isDir then 1 else 0
  {
    hide U32At, WordsBytes;
    var ws, tail := InodeWords(r), [if r.isDir then 1 else 0];
    var b' := PutInode(b, s, r);
    forall i, j | 0 <= i < 31 && j == 32 * s + i ensures Word(b', j) == ws[i] {
      SplicedWord(b, 128 * s, ws, tail, i);
    }
    assert Word(b', 32 * s) == ws[0] && Word(b', 32 * s + 29) == ws[29] && Word(b', 32 * s + 30) == ws[30];
    forall i | 0 <= i < 28 ensures InodeAt(b', s).direct[i] == r.direct[i] {
      assert Word(b', 32 * s + 1 + i) == ws[1 + i];
    }
    forall i | 0 <= i < 28 ensures U32At(b', 128 * s + 4 + 4 * i) == r.direct[i] {
      assert Word(b', 32 * s + 1 + i) == ws[1 + i];
    }
  }

  /** Slots do not overlap. */
  lemma InodeSlotsDisjoint(b: Block, s: nat, r: InodeRec, t: nat)
    requires s < 4 && |r.direct| == 28 && t < 4 && t != s
    ensures InodeAt(PutInode(b, s, r), t) == InodeAt(b, t)
  {
    var b' := PutInode(b, s, r);
    hide U32At, WordsBytes;
    forall j | 32 * t <= j < 32 * t + 31 ensures Word(b', j) == Word(b, j) {
      U32AtLocal(b', 4 * j, b, 4 * j);
    }
    assert InodeAt(b', t).direct == InodeAt(b, t).direct;
  }

  // The superblock: six words.

  const EFS_MAGIC: u32 := 0x3b800001

  datatype SuperBlock = SuperBlock(magic: u32, total: u32, inodeBitmap: u32, inodeArea: u32, dataBitmap: u32,
    dataArea: u32)

  function SuperAt(b: Block): SuperBlock {
    SuperBlock(Word(b, 0), Word(b, 1), Word(b, 2), Word(b, 3), Word(b, 4), Word(b, 5))
  }

  function PutSuper(b: Block, s: SuperBlock): Block {
    Splice(b, 0, WordsBytes([s.magic, s.total, s.inodeBitmap, s.inodeArea, s.dataBitmap, s.dataArea]))
  }

  lemma SuperRoundTrip(b: Block, s: SuperBlock)
    ensures SuperAt(PutSuper(b, s)) == s
    ensures
      var b' := PutSuper(b, s);
      && U32At(b', 0) == s.magic && U32At(b', 4) == s.total && U32At(b', 8) == s.inodeBitmap
      && U32At(b', 12) == s.inodeArea && U32At(b', 16) == s.dataBitmap && U32At(b', 20) == s.dataArea
  {
    hide U32At, WordsBytes;
    var ws := [s.magic, s.total, s.inodeBitmap, s.inodeArea, s.dataBitmap, s.dataArea];
    assert WordsBytes(ws) + [] == WordsBytes(ws);
    forall i | 0 <= i < 6 ensures Word(PutSuper(b, s), i) == ws[i] {
      SplicedWord(b, 0, ws, [], i);
    }
    assert forall i | 0 <= i < 6 :: U32At(PutSuper(b, s), 4 * i) == Word(PutSuper(b, s), i);
  }

  // Directory entries: 28 bytes of NUL-terminated name and the inode number.

  const NAME_LENGTH_LIMIT: nat := 27
  const DIRENT_SZ: nat := 32

  type Name = seq<byte>

  datatype DirEnt = DirEnt(name: Name, id: u32)

  /** `DirEntry::new(name, id).as_bytes()` */
  function EncodeEntry(e: DirEnt): (s: seq<byte>)
    requires |e.name| <= 28
    ensures |s| == 32
  {
    e.name + seq(28 - |e.name|, _ => 0) + U32Bytes(e.id)
  }

  /** Length of the name field up to its first NUL; 28 when there is none. */
  function NameLen(s: seq<byte>, i: nat): (k: nat)
    requires i <= 28 <= |s|
    ensures i <= k <= 28
    ensures k < 28 ==> s[k] == 0
    ensures forall j | i <= j < k :: s[j] != 0
    decreases 28 - i
  {
    if i == 28 || s[i] == 0 then i else NameLen(s, i + 1)
  }

  /** `DirEntry::name()`; the source panics when there is no terminator, that is, at length 28. */
  function DecodeName(s: seq<byte>): Name
    requires |s| == 32
  {
    s[..NameLen(s, 0)]
  }

  function DecodeId(s: seq<byte>): u32
    requires |s| == 32
  {
    U32At(s, 28)
  }

  predicate ValidName(name: Name) {
    |name| <= NAME_LENGTH_LIMIT && 0 !in name
  }

  /** The entry round trip, exactly: the number always comes back, the name comes back with its
      terminator found if and only if it is at most 27 bytes long and has no NUL. */
  lemma EntryRoundTrip(e: DirEnt)
    requires |e.name| <= 28
    ensures DecodeId(EncodeEntry(e)) == e.id == U32At(EncodeEntry(e), 28)
    ensures forall k | 0 <= k < 28 :: EncodeEntry(e)[k] == if k < |e.name| then e.name[k] else 0
    ensures ValidName(e.name) <==> NameLen(EncodeEntry(e), 0) < 28 && DecodeName(EncodeEntry(e)) == e.name
  {
    var s := EncodeEntry(e);
    U32RoundTrip(e.id);
    U32AtLocal(s, 28, U32Bytes(e.id), 0);
    assert s[..|e.name|] == e.name;
    var k := NameLen(s, 0);
    if ValidName(e.name) {
      assert forall j | 0 <= j < |e.name| :: s[j] == e.name[j] != 0;
      assert s[|e.name|] == 0;
    }
  }
}
