/** File contents: `DiskInode::read_at` and `write_at` (easy-fs/src/layout.rs). */
module FileData {
  import opened Basics
  import opened Bytes
  import opened BlockCache
  import opened Layout
  import opened DiskInodes

  /** Byte `k` of the data area of a file with `n` data blocks. */
  ghost function ByteAt(d: seq<Block>, n: nat, ids: seq<u32>, k: nat): byte
    requires TotalOf(n) <= |ids| && InRange(ids, 0, |d|) && k < 512 * n
  {
    DataPosFacts(k / 512, n);
    d[ids[DataPos(k / 512)]][k % 512]
  }

  /** The data blocks hold `data`, and zeros behind it up to the end of the last block. */
  ghost predicate FileBytes(d: seq<Block>, n: nat, ids: seq<u32>, data: seq<byte>) {
    && TotalOf(n) <= |ids| && InRange(ids, 0, |d|) && n == DataBlocks(|data|)
    && forall k | 0 <= k < 512 * n :: ByteAt(d, n, ids, k) == if k < |data| then data[k] else 0
  }

  function Zeros(n: nat): (z: seq<byte>)
    ensures |z| == n && forall k | 0 <= k < n :: z[k] == 0
  {
    seq(n, _ => 0)
  }

  /** The contents after a write: zero-padded up to `offset`, then overlaid by `buf`. */
  function Overlay(data: seq<byte>, offset: nat, buf: seq<byte>): (r: seq<byte>)
    ensures |r| == if offset + |buf| < |data| then |data| else offset + |buf|
    ensures forall k | 0 <= k < |r| ::
              r[k] == if offset <= k < offset + |buf| then buf[k - offset] else if k < |data| then data[k] else 0
  {
    var padded := if offset + |buf| < |data| then data else data + Zeros(offset + |buf| - |data|);
    Splice(padded, offset, buf)
  }

  /** Growing first and writing then is one overlay. */
  lemma OverlayInTwo(data: seq<byte>, offset: nat, buf: seq<byte>)
    ensures Splice(Overlay(data, offset + |buf|, []), offset, buf) == Overlay(data, offset, buf)
  {
  }

  lemma OverlayNothing(data: seq<byte>, size: nat)
    ensures size <= |data| ==> Overlay(data, size, []) == data
    ensures size >= |data| ==> Overlay(data, size, []) == data + Zeros(size - |data|)
  {
  }

  /** A run of bytes inside one block is a run of bytes of the file. */
  lemma BlockSlice(d: seq<Block>, n: nat, ids: seq<u32>, data: seq<byte>, start: nat, count: nat)
    requires FileBytes(d, n, ids, data) && start < 512 * n && start % 512 + count <= 512 && start + count <= |data|
    ensures DataPos(start / 512) < |ids|
    ensures d[ids[DataPos(start / 512)]][start % 512..start % 512 + count] == data[start..start + count]
  {
    DataPosFacts(start / 512, n);
    var b := d[ids[DataPos(start / 512)]];
    var s, t := b[start % 512..start % 512 + count], data[start..start + count];
    forall j | 0 <= j < count ensures s[j] == t[j] {
      var k := start + j;
      assert k / 512 == start / 512 && k % 512 == start % 512 + j;
      assert ByteAt(d, n, ids, k) == data[k];
    }
  }

  /** Splicing bytes into one data block splices them into the file. */
  lemma WriteStep(d: seq<Block>, n: nat, ids: seq<u32>, data: seq<byte>, start: nat, src: seq<byte>, d': seq<Block>)
    requires FileBytes(d, n, ids, data) && NoDup(ids)
    requires start < 512 * n && start % 512 + |src| <= 512 && start + |src| <= |data|
    requires DataPos(start / 512) < |ids|
    requires var x := ids[DataPos(start / 512)]; d' == d[x := Splice(d[x], start % 512, src)]
    ensures FileBytes(d', n, ids, Splice(data, start, src))
  {
    var i := start / 512;
    var data' := Splice(data, start, src);
    forall k | 0 <= k < 512 * n ensures ByteAt(d', n, ids, k) == if k < |data'| then data'[k] else 0 {
      DataPosFacts(k / 512, n);
      assert ByteAt(d, n, ids, k) == if k < |data| then data[k] else 0;
      if k / 512 != i {
        assert ids[DataPos(k / 512)] != ids[DataPos(i)];
      } else {
        assert k == 512 * i + k % 512 && start == 512 * i + start % 512;
      }
    }
  }

  /** Data blocks are not index blocks, so writing one leaves the tree alone. */
  lemma WriteKeepsTree(d: seq<Block>, ino: InodeRec, n: nat, ids: seq<u32>, i: nat, b: Block)
    requires TreeOk(d, ino, n, ids) && NoDup(ids) && i < n && DataPos(i) < |ids|
    ensures TreeOk(d[ids[DataPos(i)] := b], ino, n, ids) && IndexKept(d, d[ids[DataPos(i)] := b], ids)
  {
    hide TreeOk;
    TreeBounds(d, ino, n, ids);
    var d' := d[ids[DataPos(i)] := b];
    DataPosFacts(i, n);
    forall p | 0 <= p < |ids| && IsIndexPos(p) && ids[p] < |d| ensures d'[ids[p]] == d[ids[p]] {
      assert ids[p] != ids[DataPos(i)];
    }
    TreeFrame(d, d', ino, n, ids, ids);
  }

  lemma SpliceTwice(data: seq<byte>, offset: nat, a: seq<byte>, b: seq<byte>)
    requires offset + |a| + |b| <= |data|
    ensures Splice(Splice(data, offset, a), offset + |a|, b) == Splice(data, offset, a + b)
  {
  }

  /** Growing by zeroed blocks appends zeros. */
  lemma GrowBytes(d: seq<Block>, d': seq<Block>, ids: seq<u32>, more: seq<u32>, data: seq<byte>, size: nat)
    requires FileBytes(d, DataBlocks(|data|), ids, data) && |ids| == TotalBlocks(|data|)
    requires |data| <= size && |ids + more| == TotalBlocks(size) && NoDup(ids + more)
    requires |d'| == |d| && InRange(more, 0, |d|)
    requires forall x | x in more :: d[x] == ZeroBlock()
    requires OnlyIndexChanged(d, d', ids + more)
    ensures FileBytes(d', DataBlocks(size), ids + more, data + Zeros(size - |data|))
  {
    hide OnlyIndexChanged;
    var n, n', all, data' := DataBlocks(|data|), DataBlocks(size), ids + more, data + Zeros(size - |data|);
    OnlyIndexChangedFacts(d, d', n', all);
    forall k | 0 <= k < 512 * n' ensures ByteAt(d', n', all, k) == if k < |data'| then data'[k] else 0 {
      var i := k / 512;
      assert d'[all[DataPos(i)]] == d[all[DataPos(i)]];
      if i < n {
        DataPosFacts(i, n);
        assert ByteAt(d, n, ids, k) == if k < |data| then data[k] else 0;
      } else {
        DataPosLow(i, n);
        assert all[DataPos(i)] in more by {
          assert all[DataPos(i)] == more[DataPos(i) - |ids|];
        }
      }
    }
  }

  /** Data block `i` comes after all blocks of a file of at most `i` data blocks. */
  lemma DataPosLow(i: nat, n: nat)
    requires n <= i
    ensures TotalOf(n) <= DataPos(i)
  {
  }

  lemma SliceConcat(data: seq<byte>, a: nat, b: nat, c: nat)
    requires a <= b <= c <= |data|
    ensures data[a..b] + data[b..c] == data[a..c]
  {
  }

  /** `read_at` copies exactly the bytes of the file from `offset`, up to its end, and leaves the
      rest of the buffer alone. */
  method ReadAt(ino: DiskInode, offset: nat, buf: array<byte>, dev: BlockCacheManager,
                ghost ids: seq<u32>, ghost data: seq<byte>) returns (readSize: nat)
    requires dev.Valid() && |dev.pins| <= 15 && ino.size == |data|
    requires TreeOk(dev.blocks, ino.Rec(), DataBlocks(|data|), ids) &&
        FileBytes(dev.blocks, DataBlocks(|data|), ids, data)
    modifies buf, dev
    ensures dev.Valid() && dev.pins == old(dev.pins) && dev.blocks == old(dev.blocks)
    ensures readSize == if offset < |data| then Min(buf.Length, |data| - offset) else 0
    ensures readSize > 0 ==> buf[..readSize] == data[offset..offset + readSize]
    ensures buf[readSize..] == old(buf[readSize..])
    ensures old(dev.Clean()) ==> dev.Clean()
  {
    hide Word, TreeOk, FileBytes, InRange, BlockCacheManager.Valid, TotalOf, DataPos, IndexKept, UnusedZero, Hole;
    var start := offset;
    var end := Min(offset + buf.Length, ino.size);
    if start >= end {
      return 0;
    }
    ghost var n := DataBlocks(|data|);
    var startBlock := start / BLOCK_SZ;
    readSize := 0;
    while true
      invariant offset <= start < end && startBlock == start / 512 && readSize == start - offset
      invariant dev.Valid() && dev.pins == old(dev.pins) && dev.blocks == old(dev.blocks)
      invariant old(dev.Clean()) ==> dev.Clean()
      invariant buf[..readSize] == data[offset..start]
      invariant forall k | readSize <= k < buf.Length :: buf[k] == old(buf[k])
      decreases end - start
    {
      var endCurrent := Min((start / BLOCK_SZ + 1) * BLOCK_SZ, end);
      var count := endCurrent - start;
      var id := ino.GetBlockId(startBlock, dev, n, ids);
      TreeBounds(dev.blocks, ino.Rec(), n, ids);
      RangeAt(ids, DataPos(startBlock), |dev.blocks|);
      var b := dev.Read(id);
      BlockSlice(dev.blocks, n, ids, data, start, count);
      CopyInto(buf, readSize, b[start % BLOCK_SZ..start % BLOCK_SZ + count]);
      readSize := readSize + count;
      SliceConcat(data, offset, start, endCurrent);
      if endCurrent == end {
        break;
      }
      startBlock := startBlock + 1;
      start := endCurrent;
    }
  }

  /** `dst.copy_from_slice(src)` on the part of `buf` from `at` on. */
  method CopyInto(buf: array<byte>, at: nat, src: seq<byte>)
    requires at + |src| <= buf.Length
    modifies buf
    ensures buf[..at + |src|] == old(buf[..at]) + src
    ensures forall k | at + |src| <= k < buf.Length :: buf[k] == old(buf[k])
  {
    forall j | 0 <= j < |src| {
      buf[at + j] := src[j];
    }
  }

  /** The block at `offset` exists, or nothing is written and looking for it is harmless. */
  ghost predicate CanStart(d: seq<Block>, ino: InodeRec, offset: nat, len: nat, ids: seq<u32>, size: nat) {
    var n := DataBlocks(size);
    && offset <= size && 0 < |d|
    && (offset < 512 * n || (len == 0 && !Hole(n) && UnusedZero(d, ino, n, ids)))
  }

  /** One iteration of the loop of `write_at`: the bytes `src` go to `start`, or, when there are none
      and the block does not exist, block 0 is modified to what it is. */
  method WriteOne(ino: DiskInode, start: nat, src: seq<byte>, dev: BlockCacheManager,
                  ghost ids: seq<u32>, ghost data: seq<byte>)
    requires dev.Valid() && |dev.pins| <= 15 && NoDup(ids)
    requires TreeOk(dev.blocks, ino.Rec(), DataBlocks(|data|), ids) &&
        FileBytes(dev.blocks, DataBlocks(|data|), ids, data)
    requires CanStart(dev.blocks, ino.Rec(), start, |src|, ids, |data|)
    requires start % 512 + |src| <= 512 && start + |src| <= |data|
    modifies dev
    ensures dev.Valid() && dev.pins == old(dev.pins) && IndexKept(old(dev.blocks), dev.blocks, ids)
    ensures TreeOk(dev.blocks, ino.Rec(), DataBlocks(|data|), ids)
    ensures FileBytes(dev.blocks, DataBlocks(|data|), ids, Splice(data, start, src))
    ensures forall x: u32 | x < |dev.blocks| && x !in ids :: dev.blocks[x] == old(dev.blocks)[x]
  {
    hide Word, TreeOk, FileBytes, InRange, BlockCacheManager.Valid, TotalOf, DataPos, NoDup, UnusedZero, DataBlocks,
        Hole, Splice;
    ghost var n, d := DataBlocks(|data|), dev.blocks;
    SizeBound(|data|, start);
    assert n == start / 512 || start / 512 < n;
    var id := ino.GetBlockId(start / BLOCK_SZ, dev, n, ids);
    TreeBounds(d, ino.Rec(), n, ids);
    if start / 512 < n {
      RangeAt(ids, DataPos(start / 512), |dev.blocks|);
    }
    var b := dev.Read(id);
    dev.Modify(id, Splice(b, start % BLOCK_SZ, src));
    if start / 512 < n {
      WriteStep(d, n, ids, data, start, src, dev.blocks);
      WriteKeepsTree(d, ino.Rec(), n, ids, start / 512, Splice(b, start % 512, src));
    } else {
      SpliceNothing(b, start % 512);
      SpliceNothing(data, start);
      assert dev.blocks == d;
    }
  }

  lemma SizeBound(size: nat, start: nat)
    requires start <= size
    ensures start / 512 <= DataBlocks(size) && (start < 512 * DataBlocks(size) <==> start / 512 < DataBlocks(size))
  {
  }

  lemma SpliceNothing(data: seq<byte>, at: nat)
    requires at <= |data|
    ensures Splice(data, at, []) == data
  {
  }

  /** `write_at` replaces the bytes of the file from `offset` on, up to its end, by those of `buf`;
      only data blocks of the file are written. */
  method WriteAt(ino: DiskInode, offset: nat, buf: seq<byte>, dev: BlockCacheManager,
                 ghost ids: seq<u32>, ghost data: seq<byte>) returns (writeSize: nat)
    requires dev.Valid() && |dev.pins| <= 15 && ino.size == |data| && NoDup(ids)
    requires TreeOk(dev.blocks, ino.Rec(), DataBlocks(|data|), ids) &&
        FileBytes(dev.blocks, DataBlocks(|data|), ids, data)
    requires CanStart(dev.blocks, ino.Rec(), offset, |buf|, ids, |data|)
    modifies dev
    ensures dev.Valid() && dev.pins == old(dev.pins) && |dev.blocks| == |old(dev.blocks)|
    ensures writeSize == Min(|buf|, |data| - offset)
    ensures TreeOk(dev.blocks, ino.Rec(), DataBlocks(|data|), ids) && IndexKept(old(dev.blocks), dev.blocks, ids)
    ensures FileBytes(dev.blocks, DataBlocks(|data|), ids, Splice(data, offset, buf[..writeSize]))
    ensures forall x: u32 | x < |dev.blocks| && x !in ids :: dev.blocks[x] == old(dev.blocks)[x]
  {
    hide Word, TreeOk, FileBytes, InRange, BlockCacheManager.Valid, TotalOf, DataPos, NoDup, CanStart, IndexKept,
        DataBlocks, Splice;
    var start := offset;
    CanStartFacts(dev.blocks, ino.Rec(), offset, |buf|, ids, |data|);
    var end := Min(offset + |buf|, ino.size);
    ghost var n := DataBlocks(|data|);
    writeSize := 0;
    assert buf[..0] == [];
    SpliceNothing(data, offset);
    IndexKeptRefl(dev.blocks, ids);
    while true
      invariant offset <= start <= end && (start == end ==> start == offset) && writeSize == start - offset
      invariant dev.Valid() && dev.pins == old(dev.pins) && |dev.blocks| == |old(dev.blocks)|
      invariant TreeOk(dev.blocks, ino.Rec(), n, ids) && IndexKept(old(dev.blocks), dev.blocks, ids)
      invariant start == offset ==> dev.blocks == old(dev.blocks)
      invariant FileBytes(dev.blocks, n, ids, Splice(data, offset, buf[..writeSize]))
      invariant forall x: u32 | x < |dev.blocks| && x !in ids :: dev.blocks[x] == old(dev.blocks)[x]
      decreases end - start
    {
      ghost var d, data' := dev.blocks, Splice(data, offset, buf[..writeSize]);
      var endCurrent := Min((start / BLOCK_SZ + 1) * BLOCK_SZ, end);
      var count := endCurrent - start;
      var src := buf[writeSize..writeSize + count];
      StillStarts(d, ino.Rec(), offset, |buf|, ids, |data|, start, end, count);
      WriteOne(ino, start, src, dev, ids, data');
      SpliceTwice(data, offset, buf[..writeSize], src);
      assert buf[..writeSize] + src == buf[..writeSize + count];
      IndexKeptTrans(old(dev.blocks), d, dev.blocks, ids);
      writeSize := writeSize + count;
      if endCurrent == end {
        break;
      }
      start := endCurrent;
    }
  }

  lemma CanStartFacts(d: seq<Block>, ino: InodeRec, offset: nat, len: nat, ids: seq<u32>, size: nat)
    requires CanStart(d, ino, offset, len, ids, size)
    ensures offset <= size && 0 < |d|
  {
  }

  /** Every iteration has a block to start in. */
  lemma StillStarts(d: seq<Block>, ino: InodeRec, offset: nat, len: nat, ids: seq<u32>, size: nat, start: nat,
            end: nat, count: nat)
    requires offset <= start <= end == Min(offset + len, size) && 0 < |d|
    requires start == offset ==> CanStart(d, ino, offset, len, ids, size)
    requires start == end ==> start == offset
    requires count == Min((start / 512 + 1) * 512, end) - start
    ensures CanStart(d, ino, start, count, ids, size) && start % 512 + count <= 512
  {
    hide UnusedZero, Hole;
  }

  lemma IndexKeptRefl(d: seq<Block>, ids: seq<u32>)
    ensures IndexKept(d, d, ids)
  {
  }

  lemma IndexKeptTrans(a: seq<Block>, b: seq<Block>, c: seq<Block>, ids: seq<u32>)
    requires IndexKept(a, b, ids) && IndexKept(b, c, ids)
    ensures IndexKept(a, c, ids)
  {
  }
}
