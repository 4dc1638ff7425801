/** Whole lives of an index tree: any number of `increase_size` calls, then `clear_size`. */
module Growing {
  import opened Bytes
  import opened BlockCache
  import opened Layout
  import opened DiskInodes

  /** One call of `increase_size`. */
  datatype Growth = Growth(size: u32, blocks: seq<u32>)

  /** All blocks handed over, in order. */
  ghost function Given(grows: seq<Growth>): seq<u32> {
    if grows == [] then [] else Given(grows[..|grows| - 1]) + grows[|grows| - 1].blocks
  }

  ghost function SizeAfter(grows: seq<Growth>): u32 {
    if grows == [] then 0 else grows[|grows| - 1].size
  }

  /** Sizes do not shrink and each call brings the `blocks_num_needed` blocks. */
  ghost predicate LegalGrowth(grows: seq<Growth>) {
    forall k | 0 <= k < |grows| ::
      && SizeAfter(grows[..k]) <= grows[k].size <= MAX_FILE_SIZE
      && |grows[k].blocks| == TotalBlocks(grows[k].size) - TotalBlocks(SizeAfter(grows[..k]))
  }

  lemma {:induction false} GivenPrefix(grows: seq<Growth>, k: nat)
    requires k <= |grows|
    ensures Given(grows[..k]) <= Given(grows)
    decreases |grows|
  {
    if k < |grows| {
      var n := |grows| - 1;
      assert grows[..n][..k] == grows[..k];
      GivenPrefix(grows[..n], k);
    } else {
      assert grows[..k] == grows;
    }
  }

  lemma RangeSuffix(a: seq<u32>, b: seq<u32>, n: nat, all: seq<u32>)
    requires a + b <= all && InRange(all, 0, n) && NoDup(all)
    ensures InRange(b, 0, n) && NoDup(a + b)
  {
    forall i | 0 <= i < |b| ensures b[i] < n {
      assert b[i] == (a + b)[|a| + i] == all[|a| + i];
    }
    assert forall i | 0 <= i < |a + b| :: (a + b)[i] == all[i];
  }

  lemma NextGrowth(grows: seq<Growth>, k: nat, n: nat)
    requires k < |grows| && NoDup(Given(grows)) && InRange(Given(grows), 0, n)
    ensures Given(grows[..k + 1]) == Given(grows[..k]) + grows[k].blocks && SizeAfter(grows[..k + 1]) == grows[k].size
    ensures NoDup(Given(grows[..k]) + grows[k].blocks) && InRange(grows[k].blocks, 0, n)
  {
    hide NoDup, InRange;
    assert grows[..k + 1][..k] == grows[..k];
    GivenPrefix(grows, k + 1);
    var a, b := Given(grows[..k]), grows[k].blocks;
    RangeSuffix(a, b, n, Given(grows));
  }

  /** The block of every logical index. */
  method Mapping(ino: DiskInode, dev: BlockCacheManager, ghost ids: seq<u32>) returns (mapping: seq<u32>)
    requires dev.Valid() && |dev.pins| <= 14 && TreeOk(dev.blocks, ino.Rec(), DataBlocks(ino.size), ids) &&
        |ids| == TotalBlocks(ino.size)
    modifies dev
    ensures dev.Valid() && dev.pins == old(dev.pins) && dev.blocks == old(dev.blocks)
    ensures |mapping| == DataBlocks(ino.size)
    ensures forall i | 0 <= i < |mapping| :: DataPos(i) < |ids| && mapping[i] == ids[DataPos(i)]
  {
    hide BlockCacheManager.Valid, TreeOk, DataPos, TotalOf, DataBlocks;
    mapping := [];
    for i := 0 to DataBlocks(ino.size)
      invariant dev.Valid() && dev.pins == old(dev.pins) && dev.blocks == old(dev.blocks) && |mapping| == i
      invariant forall j | 0 <= j < i :: DataPos(j) < |ids| && mapping[j] == ids[DataPos(j)]
    {
      var id := ino.GetBlockId(i, dev, DataBlocks(ino.size), ids);
      mapping := mapping + [id];
    }
  }

  /** The blocks handed over without those that became index blocks, in order. */
  function DataOf(all: seq<u32>): seq<u32> {
    if all == [] then []
    else
      var p := |all| - 1;
      DataOf(all[..p]) + (if IsIndexPos(p) then [] else [all[p]])
  }

  lemma {:induction false} IndexTail(all: seq<u32>, p: nat)
    requires p <= |all| && forall i | p <= i < |all| :: IsIndexPos(i)
    ensures DataOf(all) == DataOf(all[..p])
    decreases |all|
  {
    if p < |all| {
      var n := |all| - 1;
      IndexTail(all[..n], p);
      assert all[..n][..p] == all[..p];
    } else {
      assert all[..p] == all;
    }
  }

  /** The next data block comes after the index blocks it needs, if any. */
  lemma NextPos(n: nat)
    ensures TotalOf(n) <= DataPos(n) == TotalOf(n + 1) - 1 && !IsIndexPos(DataPos(n))
    ensures forall i | TotalOf(n) <= i < DataPos(n) :: IsIndexPos(i)
  {
    if n >= 156 {
      var a, b := (n - 156) / 128, (n - 156) % 128;
      assert n == 156 + 128 * a + b;
      assert SubCount(n) == if b == 0 then a else a + 1;
      assert SubCount(n + 1) == a + 1;
    }
  }

  lemma {:induction false} MappingIsData(all: seq<u32>, mapping: seq<u32>)
    requires |all| == TotalOf(|mapping|)
    requires forall i | 0 <= i < |mapping| :: DataPos(i) < |all| && mapping[i] == all[DataPos(i)]
    ensures mapping == DataOf(all)
    decreases |mapping|
  {
    if mapping != [] {
      var n := |mapping| - 1;
      NextPos(n);
      hide DataPos, TotalOf, IsIndexPos;
      var p, init := DataPos(n), all[..TotalOf(n)];
      EarlierPos(n);
      MappingIsData(init, mapping[..n]);
      IndexTail(all[..p], TotalOf(n));
      assert all[..p][..TotalOf(n)] == init;
      assert mapping == mapping[..n] + [mapping[n]];
    }
  }

  lemma EarlierPos(n: nat)
    ensures forall i | 0 <= i < n :: DataPos(i) < TotalOf(n)
  {
  }

  /** However growth is split into calls, logical block `i` is at position `DataPos(i)` of all the
      blocks handed over, and clearing returns exactly those blocks in that order. */
  method GrowThenClear(dev: BlockCacheManager, isDir: bool, grows: seq<Growth>) returns (mapping: seq<u32>,
            freed: seq<u32>)
    requires dev.Valid() && |dev.pins| <= 14
    requires LegalGrowth(grows) && NoDup(Given(grows)) && InRange(Given(grows), 0, |dev.blocks|)
    modifies dev
    ensures dev.Valid() && dev.pins == old(dev.pins)
    ensures |mapping| == DataBlocks(SizeAfter(grows)) && freed == Given(grows)
    ensures forall i | 0 <= i < |mapping| :: DataPos(i) < |Given(grows)| && mapping[i] == Given(grows)[DataPos(i)]
    ensures mapping == DataOf(Given(grows))
  {
    hide BlockCacheManager.Valid, TreeOk, NoDup, InRange, DataPos, OnlyIndexChanged, TotalOf, DataBlocks;
    var ino := new DiskInode(InodeRec(0, seq<u32>(28, _ => 0), 0, 0, isDir));
    EmptyTree(dev.blocks, ino.Rec());
    for k := 0 to |grows|
      invariant fresh(ino) && dev.Valid() && dev.pins == old(dev.pins) && |dev.blocks| == |old(dev.blocks)|
      invariant ino.size == SizeAfter(grows[..k]) && |Given(grows[..k])| == TotalBlocks(ino.size)
      invariant TreeOk(dev.blocks, ino.Rec(), DataBlocks(ino.size), Given(grows[..k]))
    {
      NextGrowth(grows, k, |dev.blocks|);
      var used := ino.IncreaseSize(grows[k].size, grows[k].blocks, dev, Given(grows[..k]));
    }
    assert grows[..|grows|] == grows;
    mapping := Mapping(ino, dev, Given(grows));
    MappingIsData(Given(grows), mapping);
    freed := ino.ClearSize(dev, Given(grows));
  }

  lemma EmptyTree(d: seq<Block>, ino: InodeRec)
    requires ino.size == 0 && |ino.direct| == 28
    ensures TreeOk(d, ino, DataBlocks(0), []) && TotalBlocks(0) == 0
  {
  }
}
