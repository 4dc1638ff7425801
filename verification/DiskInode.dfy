/** `DiskInode` as the mutable record of easy-fs/src/layout.rs. */
module DiskInodes {
  import opened Bytes
  import opened BlockCache
  import opened Layout

  /** The closure that fills the single-indirect block. */
  method FillWords(b: Block, cur: nat, total: nat, newBlocks: seq<u32>, c: nat,
                   ghost d: seq<Block>, ghost ino: InodeRec, ghost ids: seq<u32>)
    returns (b': Block, cur': nat, c': nat)
    requires 28 <= cur <= total && TotalOf(total) == |ids| && 28 < |ids| && NoDup(ids)
    requires TreeOk(d, ino, cur, ids) && ino.ind1 == ids[28] < |d| && d[ids[28]] == b
    requires c <= |newBlocks| <= |ids| && ids[|ids| - |newBlocks|..] == newBlocks
    requires cur < 156 ==> |ids| - |newBlocks| + c == cur + 1
    ensures TreeOk(d[ids[28] := b'], ino, cur', ids) && OnlyIndexChanged(d, d[ids[28] := b'], ids)
    ensures UnusedKept(d, d[ids[28] := b'], ids, cur')
    ensures cur' == (if cur < 156 then if total < 156 then total else 156 else cur)
    ensures c <= c' <= |newBlocks| && c' - c == cur' - cur
  {
    hide Word, PutWord, TreeOk, NoDup, InRange, OnlyIndexChanged, UnusedKept;
    b', cur', c' := b, cur, c;
    assert d[ids[28] := b'] == d;
    OnlyIndexRefl(d, ids);
    KeptRefl(d, ids, cur);
    while cur' < (if total < INDIRECT1_BOUND then total else INDIRECT1_BOUND)
      invariant cur <= cur' <= total && (cur < 156 ==> cur' <= 156) && (cur >= 156 ==> cur' == cur)
      invariant c' - c == cur' - cur && c <= c' <= |newBlocks|
      invariant TreeOk(d[ids[28] := b'], ino, cur', ids) && OnlyIndexChanged(d, d[ids[28] := b'], ids)
      invariant UnusedKept(d, d[ids[28] := b'], ids, cur')
    {
      ghost var d' := d[ids[28] := b'];
      assert newBlocks[c'] == ids[cur' + 1];
      b' := PutWord(b', cur' - INODE_DIRECT_COUNT, newBlocks[c']);
      assert d[ids[28] := b'] == d'[ids[28] := b'];
      StepInd1(d', ino, cur', ids, d[ids[28] := b']);
      OnlyIndexTrans(d, d', d[ids[28] := b'], ids);
      KeptPut(d', ids, 28, cur' - 28, newBlocks[c'], cur' + 1, d[ids[28] := b']);
      KeptTrans(d, d', d[ids[28] := b'], ids, cur', cur' + 1);
      cur', c' := cur' + 1, c' + 1;
    }
  }

  ghost predicate WordsAre(b: Block, count: nat, ids: seq<u32>, p: nat) {
    count <= 128 && p + count <= |ids| && forall k | 0 <= k < count :: Word(b, k) == ids[p + k]
  }

  /** The closures of `clear_size`: the first `count` words of an index block are pushed. */
  method PushWords(v: seq<u32>, b: Block, count: nat, ghost ids: seq<u32>) returns (v': seq<u32>)
    requires WordsAre(b, count, ids, |v|) && v == ids[..|v|]
    ensures v' == ids[..|v| + count]
  {
    hide Word;
    v' := v;
    for k := 0 to count
      invariant v' == ids[..|v| + k]
    {
      v' := v' + [Word(b, k)];
    }
  }

  /** Quotient and remainder of the part of `n` that lies in the double-indirect tree. */
  method SplitIndex(n: nat) returns (a: nat, b: nat)
    requires 156 <= n
    ensures 128 * a + b == n - 156 && b < 128
    ensures n > 156 ==> TotalOf(n) == (if b == 0 then SubPos(a) else LeafPos(a, b)) && TotalOf(n) >= 158
    ensures n > 156 && b > 0 ==> a < SubCount(n)
  {
    a, b := (n - INDIRECT1_BOUND) / INODE_INDIRECT1_COUNT, (n - INDIRECT1_BOUND) % INODE_INDIRECT1_COUNT;
    if n > 156 {
      EndOfList(n, a, b);
    }
  }

  class DiskInode {
    var size: u32
    var direct: seq<u32>
    var indirect1: u32
    var indirect2: u32
    var isDir: bool

    ghost function Rec(): InodeRec
      reads this
    {
      InodeRec(size, direct, indirect1, indirect2, isDir)
    }

    constructor (r: InodeRec)
      ensures Rec() == r
    {
      size, direct, indirect1, indirect2, isDir := r.size, r.direct, r.ind1, r.ind2, r.isDir;
    }

    /** `get_block_id`, also for the first block behind the end where that is harmless. */
    method GetBlockId(i: nat, dev: BlockCacheManager, ghost n: nat, ghost ids: seq<u32>) returns (id: u32)
      requires dev.Valid() && |dev.pins| <= 15
      requires TreeOk(dev.blocks, Rec(), n, ids) &&
          (i < n || (i == n && !Hole(n) && UnusedZero(dev.blocks, Rec(), n, ids)))
      modifies dev
      ensures dev.Valid() && dev.pins == old(dev.pins) && dev.blocks == old(dev.blocks)
      ensures i < n ==> DataPos(i) < TotalOf(n) && id == ids[DataPos(i)]
      ensures i == n ==> id == 0
      ensures old(dev.Clean()) ==> dev.Clean()
    {
      hide Word, BlockCacheManager.Valid, UnusedZero;
      if i < n {
        BlockIdIsDataPos(dev.blocks, Rec(), n, ids, i);
      } else {
        BehindTheEnd(dev.blocks, Rec(), n, ids);
      }
      if i < INODE_DIRECT_COUNT {
        id := direct[i];
      } else if i < INDIRECT1_BOUND {
        var b := dev.Read(indirect1);
        id := Word(b, i - INODE_DIRECT_COUNT);
      } else {
        var last := i - INDIRECT1_BOUND;
        assert SubOk(dev.blocks, n, ids, last / 128);
        var b := dev.Read(indirect2);
        b := dev.Read(Word(b, last / INODE_INDIRECT1_COUNT));
        id := Word(b, last % INODE_INDIRECT1_COUNT);
      }
    }

    /** The direct slots, from `cur` up to `total` data blocks. */
    method FillDirect(cur: nat, total: nat, newBlocks: seq<u32>, ghost d: seq<Block>, ghost ids: seq<u32>)
      returns (cur': nat, c: nat)
      requires cur <= total <= INDIRECT2_BOUND && TotalOf(total) == |ids|
      requires TreeOk(d, Rec(), cur, ids) && ids[TotalOf(cur)..] == newBlocks
      modifies this`direct
      ensures TreeOk(d, Rec(), cur', ids) && cur <= cur' <= total
      ensures cur' == (if cur < 28 then if total < 28 then total else 28 else cur)
      ensures c <= |newBlocks| && TotalOf(cur) + c == TotalOf(cur')
      ensures |direct| == |old(direct)| == 28 && forall i | cur' <= i < 28 :: direct[i] == old(direct)[i]
    {
      hide Word, Ind1Ok, Ind2Ok;
      cur', c := cur, 0;
      while cur' < (if total < INODE_DIRECT_COUNT then total else INODE_DIRECT_COUNT)
        invariant cur <= cur' <= total && (cur < 28 ==> cur' <= 28) && (cur >= 28 ==> cur' == cur)
        invariant TreeOk(d, Rec(), cur', ids) && TotalOf(cur) + c == TotalOf(cur') && c <= |newBlocks|
        invariant |direct| == |old(direct)| == 28 && forall i | cur' <= i < 28 :: direct[i] == old(direct)[i]
      {
        StepDirect(d, Rec(), cur', ids);
        assert newBlocks[c] == ids[TotalOf(cur) + c];
        direct := direct[cur' := newBlocks[c]];
        cur', c := cur' + 1, c + 1;
      }
    }

    /** The single-indirect block, written by one `modify` closure. */
    method FillIndirect1(cur: nat, total: nat, newBlocks: seq<u32>, c: nat, dev: BlockCacheManager, ghost ids: seq<u32>)
      returns (cur': nat, c': nat)
      requires dev.Valid() && |dev.pins| <= 15 && NoDup(ids)
      requires 28 <= cur <= total <= INDIRECT2_BOUND && 28 < total && TotalOf(total) == |ids|
      requires TreeOk(dev.blocks, Rec(), cur, ids) && indirect1 == ids[28]
      requires c <= |newBlocks| <= |ids| && ids[|ids| - |newBlocks|..] == newBlocks
      requires cur < 156 ==> |ids| - |newBlocks| + c == cur + 1
      modifies dev
      ensures dev.Valid() && dev.pins == old(dev.pins)
      ensures TreeOk(dev.blocks, Rec(), cur', ids) && OnlyIndexChanged(old(dev.blocks), dev.blocks, ids)
      ensures UnusedKept(old(dev.blocks), dev.blocks, ids, cur') && |dev.blocks| == |old(dev.blocks)|
      ensures cur' == (if cur < 156 then if total < 156 then total else 156 else cur)
      ensures c <= c' <= |newBlocks| && c' - c == cur' - cur
    {
      hide Word, PutWord, TreeOk, BlockCacheManager.Valid, NoDup, InRange, OnlyIndexChanged, UnusedKept;
      TreeBounds(dev.blocks, Rec(), cur, ids);
      RangeAt(ids, 28, |dev.blocks|);
      PinnedBound(dev.pins);
      dev.Get(indirect1);
      var b := dev.ReadHeld(indirect1);
      b, cur', c' := FillWords(b, cur, total, newBlocks, c, dev.blocks, Rec(), ids);
      dev.ModifyHeld(indirect1, b);
      dev.Release(indirect1);
    }

    /** The double-indirect tree, from (a0, b0) to (a1, b1), under one `modify` of its root. */
    method FillIndirect2(cur: nat, total: nat, newBlocks: seq<u32>, c: nat, dev: BlockCacheManager, ghost ids: seq<u32>)
      returns (c': nat)
      requires dev.Valid() && |dev.pins| <= 14 && NoDup(ids)
      requires 156 <= cur <= total <= INDIRECT2_BOUND && 156 < total && TotalOf(total) == |ids|
      requires TreeOk(dev.blocks, Rec(), cur, ids) && indirect2 == ids[157]
      requires c <= |newBlocks| <= |ids| && ids[|ids| - |newBlocks|..] == newBlocks
      requires |ids| - |newBlocks| + c == if cur == 156 then 158 else TotalOf(cur)
      modifies dev
      ensures dev.Valid() && dev.pins == old(dev.pins)
      ensures TreeOk(dev.blocks, Rec(), total, ids) && OnlyIndexChanged(old(dev.blocks), dev.blocks, ids)
      ensures UnusedKept(old(dev.blocks), dev.blocks, ids, total)
      ensures c' == |newBlocks| && |dev.blocks| == |old(dev.blocks)|
    {
      hide Word, PutWord, TreeOk, BlockCacheManager.Valid, NoDup, TotalOf, InRange, OnlyIndexChanged, UnusedKept;
      TreeBounds(dev.blocks, Rec(), cur, ids);
      var a0, b0 := SplitIndex(cur);
      var a1, b1 := SplitIndex(total);
      RangeAt(ids, 157, |dev.blocks|);
      OnlyIndexRefl(dev.blocks, ids);
      KeptRefl(dev.blocks, ids, cur);
      ghost var base := |ids| - |newBlocks|;
      c' := c;
      PinnedBound(dev.pins);
      dev.Get(indirect2);
      while a0 < a1 || (a0 == a1 && b0 < b1)
        invariant 0 <= a0 <= 128 && 0 <= b0 < 128 && cur <= 156 + 128 * a0 + b0 <= total
        invariant c <= c' <= |newBlocks| && base + c' == if b0 == 0 then SubPos(a0) else LeafPos(a0, b0)
        invariant dev.Valid() && dev.pins == old(dev.pins) + multiset{indirect2}
        invariant TreeOk(dev.blocks, Rec(), 156 + 128 * a0 + b0, ids)
        invariant OnlyIndexChanged(old(dev.blocks), dev.blocks, ids) && |dev.blocks| == |old(dev.blocks)|
        invariant UnusedKept(old(dev.blocks), dev.blocks, ids, 156 + 128 * a0 + b0)
        decreases total - 128 * a0 - b0
      {
        ghost var d, n := dev.blocks, 156 + 128 * a0 + b0;
        c', a0, b0 := FillOne(a0, b0, total, newBlocks, c', dev, ids);
        OnlyIndexTrans(old(dev.blocks), d, dev.blocks, ids);
        KeptTrans(old(dev.blocks), d, dev.blocks, ids, n, n + 1);
      }
      assert a0 == a1 && b0 == b1;
      dev.Release(indirect2);
    }

    /** One iteration of that loop. */
    method FillOne(a0: nat, b0: nat, total: nat, newBlocks: seq<u32>, c: nat, dev: BlockCacheManager,
              ghost ids: seq<u32>)
      returns (c': nat, a: nat, b: nat)
      requires dev.Valid() && |dev.pins| <= 15 && NoDup(ids) && indirect2 in dev.pins
      requires a0 < 128 && b0 < 128 && 156 + 128 * a0 + b0 < total <= INDIRECT2_BOUND && TotalOf(total) == |ids|
      requires TreeOk(dev.blocks, Rec(), 156 + 128 * a0 + b0, ids) && indirect2 == ids[157]
      requires c <= |newBlocks| <= |ids| && ids[|ids| - |newBlocks|..] == newBlocks
      requires |ids| - |newBlocks| + c == if b0 == 0 then SubPos(a0) else LeafPos(a0, b0)
      modifies dev
      ensures dev.Valid() && dev.pins == old(dev.pins)
      ensures TreeOk(dev.blocks, Rec(), 156 + 128 * a0 + b0 + 1, ids)
      ensures OnlyIndexChanged(old(dev.blocks), dev.blocks, ids) && |dev.blocks| == |old(dev.blocks)|
      ensures UnusedKept(old(dev.blocks), dev.blocks, ids, 156 + 128 * a0 + b0 + 1)
      ensures c < c' <= |newBlocks| && b < 128 && 128 * a + b == 128 * a0 + b0 + 1
      ensures |ids| - |newBlocks| + c' == if b == 0 then SubPos(a) else LeafPos(a, b)
    {
      hide Word, PutWord, TreeOk, BlockCacheManager.Valid, InRange, OnlyIndexChanged, NoDup, UnusedKept, Used;
      ghost var n := 156 + 128 * a0 + b0;
      TreeBounds(dev.blocks, Rec(), n, ids);
      ghost var base := |ids| - |newBlocks|;
      assert LeafPos(a0, b0) < |ids|;
      assert ids[SubPos(a0)] < |dev.blocks| by { RangeAt(ids, SubPos(a0), |dev.blocks|); }
      OnlyIndexRefl(dev.blocks, ids);
      KeptRefl(dev.blocks, ids, n + 1);
      UsedNext(a0, b0);
      c', a, b := c, a0, b0;
      if b0 == 0 {
        var top := dev.ReadHeld(indirect2);
        ghost var d := dev.blocks;
        assert newBlocks[c'] == ids[base + c'];
        dev.ModifyHeld(indirect2, PutWord(top, a0, newBlocks[c']));
        StepSub(d, Rec(), n, a0, ids, dev.blocks);
        KeptPut(d, ids, 157, a0, newBlocks[c'], n + 1, dev.blocks);
        c' := c' + 1;
      } else {
        TreeSub(dev.blocks, Rec(), n, ids, a0);
      }
      var top := dev.ReadHeld(indirect2);
      var sub := Word(top, a0);
      ghost var d := dev.blocks;
      var leaf := dev.Read(sub);
      assert newBlocks[c'] == ids[base + c'];
      dev.Modify(sub, PutWord(leaf, b0, newBlocks[c']));
      StepLeaf(d, Rec(), n, a0, b0, ids, dev.blocks);
      OnlyIndexTrans(old(dev.blocks), d, dev.blocks, ids);
      KeptPut(d, ids, SubPos(a0), b0, newBlocks[c'], n + 1, dev.blocks);
      KeptTrans(old(dev.blocks), d, dev.blocks, ids, n + 1, n + 1);
      c' := c' + 1;
      b := b + 1;
      if b == INODE_INDIRECT1_COUNT {
        a, b := a + 1, 0;
      }
    }

    /** `increase_size`: the tree afterwards spells the old list followed by `newBlocks`, every one
        of which was consumed; only index blocks were written. */
    method IncreaseSize(newSize: u32, newBlocks: seq<u32>, dev: BlockCacheManager, ghost ids0: seq<u32>)
      returns (used: nat)
      requires dev.Valid() && |dev.pins| <= 14
      requires size <= newSize <= MAX_FILE_SIZE
      requires TreeOk(dev.blocks, Rec(), DataBlocks(size), ids0) && |ids0| == TotalBlocks(size)
      requires |newBlocks| == TotalBlocks(newSize) - TotalBlocks(size)
      requires NoDup(ids0 + newBlocks) && InRange(newBlocks, 0, |dev.blocks|)
      modifies this, dev
      ensures dev.Valid() && dev.pins == old(dev.pins) && size == newSize && isDir == old(isDir)
      ensures TreeOk(dev.blocks, Rec(), DataBlocks(newSize), ids0 + newBlocks)
      ensures OnlyIndexChanged(old(dev.blocks), dev.blocks, ids0 + newBlocks)
      ensures UnusedKept(old(dev.blocks), dev.blocks, ids0 + newBlocks, DataBlocks(newSize))
      ensures |direct| == |old(direct)| == 28 && forall i | DataBlocks(newSize) <= i < 28 :: direct[i] == old(direct)[i]
      ensures DataBlocks(newSize) <= 28 ==> indirect1 == old(indirect1)
      ensures DataBlocks(newSize) <= 156 ==> indirect2 == old(indirect2)
      ensures used == |newBlocks| && |dev.blocks| == |old(dev.blocks)|
    {
      hide Word, TreeOk, BlockCacheManager.Valid, NoDup, InRange, OnlyIndexChanged, UnusedKept, Used;
      var current := DataBlocks(size);
      var total := DataBlocks(newSize);
      ghost var ids := ids0 + newBlocks;
      TreeBounds(dev.blocks, Rec(), current, ids0);
      RangeConcat(ids0, newBlocks, |dev.blocks|);
      TreeFrame(dev.blocks, dev.blocks, Rec(), current, ids0, ids);
      TreeIgnoresSize(dev.blocks, Rec(), Rec().(size := newSize), current, ids);
      size := newSize;
      current, used := FillDirect(current, total, newBlocks, dev.blocks, ids);
      assert OnlyIndexChanged(dev.blocks, dev.blocks, ids) by { OnlyIndexRefl(dev.blocks, ids); }
      KeptRefl(dev.blocks, ids, total);
      if total <= INODE_DIRECT_COUNT {
        return;
      }
      if current == INODE_DIRECT_COUNT {
        assert newBlocks[used] == ids[28];
        TreeNewInd1(dev.blocks, Rec(), ids);
        indirect1 := newBlocks[used];
        used := used + 1;
      } else {
        TreeInd(dev.blocks, Rec(), current, ids);
      }
      current, used := FillIndirect1(current, total, newBlocks, used, dev, ids);
      if total <= INDIRECT1_BOUND {
        return;
      }
      if current == INDIRECT1_BOUND {
        assert newBlocks[used] == ids[157];
        TreeNewInd2(dev.blocks, Rec(), ids);
        indirect2 := newBlocks[used];
        used := used + 1;
      } else {
        TreeInd(dev.blocks, Rec(), current, ids);
      }
      ghost var d1 := dev.blocks;
      used := FillIndirect2(current, total, newBlocks, used, dev, ids);
      OnlyIndexTrans(old(dev.blocks), d1, dev.blocks, ids);
      KeptTrans(old(dev.blocks), d1, dev.blocks, ids, current, total);
    }

    /** The direct part of `clear_size`. */
    method ClearDirect(n: nat, ghost ids: seq<u32>) returns (v: seq<u32>)
      requires TotalOf(n) <= |ids| && DirectOk(Rec(), n, ids)
      modifies this`direct
      ensures v == ids[..if n < 28 then n else 28] && |direct| == 28
      ensures forall i | 0 <= i < 28 :: direct[i] == if i < n then 0 else old(direct)[i]
    {
      v := [];
      var cur := 0;
      while cur < (if n < INODE_DIRECT_COUNT then n else INODE_DIRECT_COUNT)
        invariant 0 <= cur <= n && cur <= 28 && v == ids[..cur] && |direct| == 28
        invariant forall i | 0 <= i < 28 :: direct[i] == if i < cur then 0 else old(direct)[i]
      {
        v := v + [direct[cur]];
        direct := direct[cur := 0];
        cur := cur + 1;
      }
    }

    /** The single-indirect part of `clear_size`. */
    method ClearIndirect1(v: seq<u32>, n: nat, dev: BlockCacheManager, ghost ino: InodeRec, ghost ids: seq<u32>)
      returns (v': seq<u32>)
      requires dev.Valid() && |dev.pins| <= 15
      requires TreeOk(dev.blocks, ino, n, ids) && ino.ind1 == indirect1
      requires TotalOf(n) == |ids| && 28 < n && v == ids[..29]
      modifies dev
      ensures dev.Valid() && dev.pins == old(dev.pins) && dev.blocks == old(dev.blocks)
      ensures v' == ids[..if n < 156 then n + 1 else 157]
    {
      hide Word, BlockCacheManager.Valid, TreeOk, InRange, WordsAre;
      ghost var d := dev.blocks;
      TreeBounds(d, ino, n, ids);
      TreeInd(d, ino, n, ids);
      RangeAt(ids, 28, |d|);
      PinnedBound(dev.pins);
      dev.Get(indirect1);
      var b := dev.ReadHeld(indirect1);
      var count := if n - 28 < 128 then n - 28 else 128;
      TreeInd1Words(d, ino, n, ids, count);
      v' := PushWords(v, b, count, ids);
      dev.TouchHeld(indirect1, b);
      dev.Release(indirect1);
    }

    /** One sub-index block of `clear_size`: its own id, then its first `count` entries. */
    method ClearSub(v: seq<u32>, top: Block, a: nat, count: nat, dev: BlockCacheManager,
                    ghost ino: InodeRec, ghost n: nat, ghost ids: seq<u32>) returns (v': seq<u32>)
      requires dev.Valid() && |dev.pins| <= 15
      requires TreeOk(dev.blocks, ino, n, ids) && TotalOf(n) == |ids|
      requires a < SubCount(n) && 0 < count <= 128 && 128 * a + count <= n - 156
      requires 157 < |ids| && ids[157] < |dev.blocks| && top == dev.blocks[ids[157]]
      requires SubPos(a) <= |ids| && v == ids[..SubPos(a)]
      modifies dev
      ensures dev.Valid() && dev.pins == old(dev.pins) && dev.blocks == old(dev.blocks)
      ensures LeafPos(a, count) <= |ids| && v' == ids[..LeafPos(a, count)]
    {
      hide Word, BlockCacheManager.Valid, TreeOk, InRange, WordsAre;
      TreeBounds(dev.blocks, ino, n, ids);
      TreeSub(dev.blocks, ino, n, ids, a);
      v' := v + [Word(top, a)];
      assert v' == ids[..LeafPos(a, 0)];
      PinnedBound(dev.pins);
      ghost var d := dev.blocks;
      dev.Get(Word(top, a));
      var b := dev.ReadHeld(Word(top, a));
      TreeLeafWords(d, ino, n, ids, a, count);
      v' := PushWords(v', b, count, ids);
      dev.TouchHeld(Word(top, a), b);
      dev.Release(Word(top, a));
    }

    /** The full sub-index blocks. */
    method ClearFull(v: seq<u32>, top: Block, a1: nat, dev: BlockCacheManager,
                     ghost ino: InodeRec, ghost n: nat, ghost ids: seq<u32>) returns (v': seq<u32>)
      requires dev.Valid() && |dev.pins| <= 15
      requires TreeOk(dev.blocks, ino, n, ids) && TotalOf(n) == |ids|
      requires 156 < n && 128 * a1 <= n - 156
      requires 158 <= |ids| && ids[157] < |dev.blocks| && top == dev.blocks[ids[157]] && v == ids[..158]
      modifies dev
      ensures dev.Valid() && dev.pins == old(dev.pins) && dev.blocks == old(dev.blocks)
      ensures SubPos(a1) <= |ids| && v' == ids[..SubPos(a1)]
    {
      hide TreeOk, BlockCacheManager.Valid;
      v' := v;
      for a := 0 to a1
        invariant dev.Valid() && dev.pins == old(dev.pins) && dev.blocks == old(dev.blocks)
        invariant SubPos(a) <= |ids| && v' == ids[..SubPos(a)]
      {
        v' := ClearSub(v', top, a, 128, dev, ino, n, ids);
        assert LeafPos(a, 128) == SubPos(a + 1);
      }
    }

    /** The double-indirect part of `clear_size`: full sub-index blocks, then the last one. */
    method ClearIndirect2(v: seq<u32>, n: nat, dev: BlockCacheManager,
                          ghost ino: InodeRec, ghost ids: seq<u32>) returns (v': seq<u32>)
      requires dev.Valid() && |dev.pins| <= 14
      requires TreeOk(dev.blocks, ino, n, ids) && ino.ind2 == indirect2
      requires TotalOf(n) == |ids| && 156 < n && v == ids[..158]
      modifies dev
      ensures dev.Valid() && dev.pins == old(dev.pins) && dev.blocks == old(dev.blocks)
      ensures v' == ids
    {
      hide Word, TreeOk, BlockCacheManager.Valid, InRange, TotalOf, SubCount;
      var a1, b1 := SplitIndex(n);
      ghost var d := dev.blocks;
      TreeBounds(d, ino, n, ids);
      TreeInd(d, ino, n, ids);
      RangeAt(ids, 157, |d|);
      PinnedBound(dev.pins);
      dev.Get(indirect2);
      var top := dev.ReadHeld(indirect2);
      v' := ClearFull(v, top, a1, dev, ino, n, ids);
      if b1 > 0 {
        v' := ClearSub(v', top, a1, b1, dev, ino, n, ids);
      }
      assert v' == ids;
      dev.TouchHeld(indirect2, top);
      dev.Release(indirect2);
    }

    /** `clear_size` returns exactly the list the tree was grown with, in the same order. */
    method ClearSize(dev: BlockCacheManager, ghost ids: seq<u32>) returns (v: seq<u32>)
      requires dev.Valid() && |dev.pins| <= 14
      requires TreeOk(dev.blocks, Rec(), DataBlocks(size), ids) && |ids| == TotalBlocks(size)
      modifies this, dev
      ensures dev.Valid() && dev.pins == old(dev.pins) && dev.blocks == old(dev.blocks)
      ensures v == ids && size == 0 && isDir == old(isDir) && |direct| == 28
      ensures forall i | 0 <= i < 28 :: direct[i] == if i < DataBlocks(old(size)) then 0 else old(direct)[i]
      ensures indirect1 == if DataBlocks(old(size)) > 28 then 0 else old(indirect1)
      ensures indirect2 == if DataBlocks(old(size)) > 156 then 0 else old(indirect2)
    {
      hide Word, BlockCacheManager.Valid, TreeOk;
      var n := DataBlocks(size);
      ghost var ino := Rec();
      TreeBounds(dev.blocks, ino, n, ids);
      TreeInd(dev.blocks, ino, n, ids);
      assert DirectOk(ino, n, ids) by { TreeDirect(dev.blocks, ino, n, ids); }
      size := 0;
      v := ClearDirect(n, ids);
      if n <= INODE_DIRECT_COUNT {
        return;
      }
      v := v + [indirect1];
      v := ClearIndirect1(v, n, dev, ino, ids);
      indirect1 := 0;
      if n <= INDIRECT1_BOUND {
        return;
      }
      v := v + [indirect2];
      v := ClearIndirect2(v, n, dev, ino, ids);
      indirect2 := 0;
    }
  }

  /** Entering data block `156 + 128 * a + b` brings these two entries into use. */
  lemma UsedNext(a: nat, b: nat)
    requires b < 128
    ensures IsIndexPos(157) && Used(157, a, 156 + 128 * a + b + 1)
    ensures IsIndexPos(SubPos(a)) && Used(SubPos(a), b, 156 + 128 * a + b + 1)
  {
  }

  /** Where the list ends when the double-indirect tree holds `a` full blocks and `b` more entries. */
  lemma EndOfList(n: nat, a: nat, b: nat)
    requires 156 < n && 128 * a + b == n - 156 && b < 128
    ensures TotalOf(n) == (if b == 0 then SubPos(a) else LeafPos(a, b)) && TotalOf(n) >= 158
    ensures b > 0 ==> a < SubCount(n)
  {
  }

  lemma RangeConcat(a: seq<u32>, b: seq<u32>, n: nat)
    requires InRange(a, 0, n) && InRange(b, 0, n)
    ensures InRange(a + b, 0, n)
  {
  }

  lemma RangeAt(a: seq<u32>, i: nat, n: nat)
    requires InRange(a, 0, n) && i < |a|
    ensures a[i] < n
  {
  }

  lemma OnlyIndexRefl(d: seq<Block>, ids: seq<u32>)
    ensures OnlyIndexChanged(d, d, ids)
  {
  }

  lemma OnlyIndexTrans(d1: seq<Block>, d2: seq<Block>, d3: seq<Block>, ids: seq<u32>)
    requires OnlyIndexChanged(d1, d2, ids) && OnlyIndexChanged(d2, d3, ids)
    ensures OnlyIndexChanged(d1, d3, ids)
  {
  }

  // Single facts of a tree, so that the methods above need not unfold it.

  lemma TreeBounds(d: seq<Block>, ino: InodeRec, n: nat, ids: seq<u32>)
    requires TreeOk(d, ino, n, ids)
    ensures n <= INDIRECT2_BOUND && TotalOf(n) <= |ids| && InRange(ids, 0, |d|)
  {
  }

  lemma TreeSub(d: seq<Block>, ino: InodeRec, n: nat, ids: seq<u32>, a: nat)
    requires TreeOk(d, ino, n, ids) && a < SubCount(n)
    ensures Word(d[ids[157]], a) == ids[SubPos(a)] < |d|
  {
    assert SubOk(d, n, ids, a);
  }

  lemma TreeDirect(d: seq<Block>, ino: InodeRec, n: nat, ids: seq<u32>)
    requires TreeOk(d, ino, n, ids)
    ensures TotalOf(n) <= |ids| && DirectOk(ino, n, ids)
  {
  }

  lemma TreeInd1Words(d: seq<Block>, ino: InodeRec, n: nat, ids: seq<u32>, count: nat)
    requires TreeOk(d, ino, n, ids) && n > 28 && count <= 128 && count <= n - 28
    ensures WordsAre(d[ids[28]], count, ids, 29)
  {
    hide Word;
  }

  lemma TreeLeafWords(d: seq<Block>, ino: InodeRec, n: nat, ids: seq<u32>, a: nat, count: nat)
    requires TreeOk(d, ino, n, ids) && a < SubCount(n) && 0 < count <= 128 && 128 * a + count <= n - 156
    ensures WordsAre(d[ids[SubPos(a)]], count, ids, LeafPos(a, 0))
  {
    hide Word;
    assert SubOk(d, n, ids, a);
    assert LeafPos(a, count - 1) < |ids|;
  }

  lemma TreeInd(d: seq<Block>, ino: InodeRec, n: nat, ids: seq<u32>)
    requires TreeOk(d, ino, n, ids)
    ensures (n > 28 ==> ino.ind1 == ids[28]) && (n > 156 ==> ino.ind2 == ids[157])
  {
  }

  lemma TreeIgnoresSize(d: seq<Block>, ino: InodeRec, ino': InodeRec, n: nat, ids: seq<u32>)
    requires TreeOk(d, ino, n, ids)
    requires ino'.direct == ino.direct && ino'.ind1 == ino.ind1 && ino'.ind2 == ino.ind2
    ensures TreeOk(d, ino', n, ids)
  {
  }

  lemma TreeNewInd1(d: seq<Block>, ino: InodeRec, ids: seq<u32>)
    requires TreeOk(d, ino, 28, ids) && 28 < |ids|
    ensures TreeOk(d, ino.(ind1 := ids[28]), 28, ids)
  {
  }

  lemma TreeNewInd2(d: seq<Block>, ino: InodeRec, ids: seq<u32>)
    requires TreeOk(d, ino, 156, ids) && 157 < |ids|
    ensures TreeOk(d, ino.(ind2 := ids[157]), 156, ids)
  {
  }
}
