/** The index tree of a `DiskInode` (easy-fs/src/layout.rs): 28 direct blocks, one single-indirect
    and one double-indirect block. The blocks of an inode are described by one list `ids`, in the
    order in which they were handed to `increase_size`. */
module Layout {
  import opened Bytes

  const INODE_DIRECT_COUNT: nat := 28
  const INODE_INDIRECT1_COUNT: nat := 128
  const INDIRECT1_BOUND: nat := 156
  const INDIRECT2_BOUND: nat := 16540
  const MAX_FILE_SIZE: nat := 8468480 // INDIRECT2_BOUND * BLOCK_SZ

  /** The fields of a `DiskInode`. */
  datatype InodeRec = InodeRec(size: u32, direct: seq<u32>, ind1: u32, ind2: u32, isDir: bool)

  function DataBlocks(size: nat): nat {
    (size + 511) / 512
  }

  /** Sub-index blocks below the double-indirect block of an inode with `n` data blocks. */
  function SubCount(n: nat): nat {
    if n > 156 then (n - 156 + 127) / 128 else 0
  }

  /** Data and index blocks of an inode with `n` data blocks. */
  function TotalOf(n: nat): nat {
    n + (if n > 28 then 1 else 0) + (if n > 156 then 1 else 0) + SubCount(n)
  }

  function TotalBlocks(size: nat): nat {
    TotalOf(DataBlocks(size))
  }

  /** Where data block `i` stands in the list of all blocks. */
  function DataPos(i: nat): nat {
    if i < 28 then i else if i < 156 then i + 1 else i + 3 + (i - 156) / 128
  }

  /** Where sub-index block `a` and its entry `b` stand in that list. */
  function SubPos(a: nat): nat { 158 + 129 * a }
  function LeafPos(a: nat, b: nat): nat { 159 + 129 * a + b }

  predicate IsIndexPos(p: nat) {
    p == 28 || p == 157 || (p >= 158 && (p - 158) % 129 == 0)
  }

  ghost predicate NoDup(ids: seq<u32>) {
    forall i, j | 0 <= i < j < |ids| :: ids[i] != ids[j]
  }

  ghost predicate InRange(ids: seq<u32>, lo: nat, hi: nat) {
    forall i | 0 <= i < |ids| :: lo <= ids[i] < hi
  }

  // The tree on disk spells out the list: one clause per level.

  ghost predicate DirectOk(ino: InodeRec, n: nat, ids: seq<u32>)
    requires TotalOf(n) <= |ids|
  {
    |ino.direct| == 28 && forall i | 0 <= i < n && i < 28 :: ino.direct[i] == ids[i]
  }

  ghost predicate Ind1Ok(d: seq<Block>, ino: InodeRec, n: nat, ids: seq<u32>)
    requires TotalOf(n) <= |ids| && InRange(ids, 0, |d|)
  {
    n > 28 ==> ino.ind1 == ids[28] && forall k | 0 <= k < 128 && k < n - 28 :: Word(d[ids[28]], k) == ids[29 + k]
  }

  ghost predicate SubOk(d: seq<Block>, n: nat, ids: seq<u32>, a: nat)
    requires TotalOf(n) <= |ids| && InRange(ids, 0, |d|) && a < SubCount(n) <= 128
  {
    && Word(d[ids[157]], a) == ids[SubPos(a)]
    && forall b | 0 <= b < 128 && 128 * a + b < n - 156 :: Word(d[ids[SubPos(a)]], b) == ids[LeafPos(a, b)]
  }

  ghost predicate Ind2Ok(d: seq<Block>, ino: InodeRec, n: nat, ids: seq<u32>)
    requires n <= INDIRECT2_BOUND && TotalOf(n) <= |ids| && InRange(ids, 0, |d|)
  {
    n > 156 ==> ino.ind2 == ids[157] && forall a | 0 <= a < SubCount(n) :: SubOk(d, n, ids, a)
  }

  /** The tree of `ino` holds `n` data blocks and its blocks are the first `TotalOf(n)` of `ids`. */
  ghost predicate TreeOk(d: seq<Block>, ino: InodeRec, n: nat, ids: seq<u32>) {
    && n <= INDIRECT2_BOUND && TotalOf(n) <= |ids| && InRange(ids, 0, |d|)
    && DirectOk(ino, n, ids) && Ind1Ok(d, ino, n, ids) && Ind2Ok(d, ino, n, ids)
  }

  /** `get_block_id` on a plain block array. */
  ghost function BlockIdOf(d: seq<Block>, ino: InodeRec, i: nat): nat
    requires |ino.direct| == 28 && i < INDIRECT2_BOUND
  {
    if i < 28 then ino.direct[i]
    else if i < 156 then (if ino.ind1 < |d| then Word(d[ino.ind1], i - 28) else 0)
    else if ino.ind2 < |d| && Word(d[ino.ind2], (i - 156) / 128) < |d|
    then Word(d[Word(d[ino.ind2], (i - 156) / 128)], (i - 156) % 128)
    else 0
  }

  /** Lookups follow the list: the mapping depends on `ids` alone, however growth was split. */
  lemma BlockIdIsDataPos(d: seq<Block>, ino: InodeRec, n: nat, ids: seq<u32>, i: nat)
    requires TreeOk(d, ino, n, ids) && i < n
    ensures DataPos(i) < TotalOf(n) && BlockIdOf(d, ino, i) == ids[DataPos(i)]
  {
    hide Word;
    if 28 <= i < 156 {
      assert Word(d[ids[28]], i - 28) == ids[29 + (i - 28)];
    } else if i >= 156 {
      var a, b := (i - 156) / 128, (i - 156) % 128;
      assert SubOk(d, n, ids, a);
      assert LeafPos(a, b) == DataPos(i);
    }
  }

  /** Data positions are increasing and never index positions, so no data block is an index block. */
  lemma DataPosFacts(i: nat, n: nat)
    requires i < n
    ensures DataPos(i) < TotalOf(n) && !IsIndexPos(DataPos(i))
    ensures forall j: nat :: DataPos(j) == DataPos(i) ==> j == i
  {
    var a := (i - 156) / 128;
    if i >= 156 {
      assert DataPos(i) - 158 == 129 * a + 1 + (i - 156) % 128;
    }
  }

  /** Every position of the list is a data position or an index position. */
  lemma PosCases(p: nat, n: nat) returns (i: nat)
    requires p < TotalOf(n)
    ensures IsIndexPos(p) || (i < n && DataPos(i) == p)
  {
    if p < 28 {
      i := p;
    } else if p < 157 {
      i := p - 1;
    } else {
      var a, r := (p - 158) / 129, (p - 158) % 129;
      i := 156 + 128 * a + r - 1;
      if !IsIndexPos(p) {
        assert (i - 156) / 128 == a;
      }
    }
  }

  ghost predicate IndexBlock(ids: seq<u32>, x: nat) {
    exists p | 0 <= p < |ids| :: IsIndexPos(p) && ids[p] == x
  }

  /** Only index blocks of `ids` differ. */
  ghost predicate OnlyIndexChanged(d: seq<Block>, d': seq<Block>, ids: seq<u32>) {
    |d| == |d'| && forall x | 0 <= x < |d| && !IndexBlock(ids, x) :: d'[x] == d[x]
  }

  lemma OnlyIndexChangedFacts(d: seq<Block>, d': seq<Block>, n: nat, ids: seq<u32>)
    requires OnlyIndexChanged(d, d', ids) && NoDup(ids) && TotalOf(n) <= |ids| && InRange(ids, 0, |d|)
    ensures |d'| == |d| && forall x: u32 | x < |d| && x !in ids :: d'[x] == d[x]
    ensures forall i: nat | i < n :: DataPos(i) < |ids| && d'[ids[DataPos(i)]] == d[ids[DataPos(i)]]
  {
    forall i: nat | i < n ensures DataPos(i) < |ids| && d'[ids[DataPos(i)]] == d[ids[DataPos(i)]] {
      DataPosFacts(i, n);
    }
  }

  /** A tree depends on its own index blocks and on the used part of the list only. */
  lemma TreeFrame(d: seq<Block>, d': seq<Block>, ino: InodeRec, n: nat, ids: seq<u32>, ids': seq<u32>)
    requires TreeOk(d, ino, n, ids) && |d'| == |d|
    requires TotalOf(n) <= |ids'| && ids'[..TotalOf(n)] == ids[..TotalOf(n)] && InRange(ids', 0, |d'|)
    requires forall p | 0 <= p < TotalOf(n) && IsIndexPos(p) :: d'[ids[p]] == d[ids[p]]
    ensures TreeOk(d', ino, n, ids')
  {
    hide Word;
    forall p | 0 <= p < TotalOf(n) ensures ids'[p] == ids[p] {
      assert ids'[..TotalOf(n)][p] == ids[..TotalOf(n)][p];
    }
    if n > 156 {
      forall a | 0 <= a < SubCount(n) ensures SubOk(d', n, ids', a) {
        assert SubOk(d, n, ids, a);
        assert IsIndexPos(SubPos(a));
      }
    }
  }

  // Entries behind the end of the tree.

  /** Entry `k` of the index block at position `p` of the list leads to one of the first `n` data blocks. */
  predicate Used(p: nat, k: nat, n: nat)
    requires IsIndexPos(p)
  {
    if p == 28 then 28 + k < n else if p == 157 then k < SubCount(n) else 156 + 128 * ((p - 158) / 129) + k < n
  }

  /** Entries not in use by a tree of `n` data blocks are as before. */
  ghost predicate UnusedKept(d: seq<Block>, d': seq<Block>, ids: seq<u32>, n: nat) {
    |d'| == |d| && forall p, k | 0 <= p < |ids| && IsIndexPos(p) && 0 <= k < 128 && !Used(p, k, n) && ids[p] < |d| ::
      Word(d'[ids[p]], k) == Word(d[ids[p]], k)
  }

  /** All pointers and index entries that the tree does not use are zero. */
  ghost predicate UnusedZero(d: seq<Block>, ino: InodeRec, n: nat, ids: seq<u32>) {
    && |ino.direct| == 28 && (forall i | n <= i < 28 :: ino.direct[i] == 0)
    && (n <= 28 ==> ino.ind1 == 0) && (n <= 156 ==> ino.ind2 == 0)
    && (forall p, k | 0 <= p < |ids| && IsIndexPos(p) && 0 <= k < 128 && !Used(p, k, n) ::
          ids[p] < |d| && Word(d[ids[p]], k) == 0)
  }

  lemma UsedMonotone(p: nat, k: nat, n: nat, m: nat)
    requires IsIndexPos(p) && n <= m && Used(p, k, n)
    ensures Used(p, k, m)
  {
  }

  lemma KeptRefl(d: seq<Block>, ids: seq<u32>, n: nat)
    ensures UnusedKept(d, d, ids, n)
  {
  }

  lemma KeptTrans(a: seq<Block>, b: seq<Block>, c: seq<Block>, ids: seq<u32>, n: nat, m: nat)
    requires UnusedKept(a, b, ids, n) && UnusedKept(b, c, ids, m) && n <= m
    ensures UnusedKept(a, c, ids, m)
  {
    hide Word, Used, IsIndexPos;
    forall p, k | 0 <= p < |ids| && IsIndexPos(p) && 0 <= k < 128 && !Used(p, k, m) && ids[p] < |a|
      ensures Word(c[ids[p]], k) == Word(a[ids[p]], k)
    {
      if Used(p, k, n) {
        UsedMonotone(p, k, n, m);
      }
    }
  }

  /** Writing an entry that is in use keeps the others. */
  lemma KeptPut(d: seq<Block>, ids: seq<u32>, q: nat, j: nat, v: u32, n: nat, d': seq<Block>)
    requires q < |ids| && IsIndexPos(q) && ids[q] < |d| && j < 128 && Used(q, j, n) && NoDup(ids)
    requires d' == d[ids[q] := PutWord(d[ids[q]], j, v)]
    ensures UnusedKept(d, d', ids, n)
  {
    hide Word, PutWord, Used, IsIndexPos;
    PutWordGet(d[ids[q]], j, v);
    forall p, k | 0 <= p < |ids| && IsIndexPos(p) && 0 <= k < 128 && !Used(p, k, n) && ids[p] < |d|
      ensures Word(d'[ids[p]], k) == Word(d[ids[p]], k)
    {
      if p == q {
        assert k != j;
      } else {
        assert ids[p] != ids[q];
      }
    }
  }

  /** The index blocks of `ids` are as before. */
  ghost predicate IndexKept(d: seq<Block>, d': seq<Block>, ids: seq<u32>) {
    |d'| == |d| && forall p | 0 <= p < |ids| && IsIndexPos(p) && ids[p] < |d| :: d'[ids[p]] == d[ids[p]]
  }

  lemma UnusedZeroFrame(d: seq<Block>, d': seq<Block>, ino: InodeRec, n: nat, ids: seq<u32>)
    requires UnusedZero(d, ino, n, ids) && IndexKept(d, d', ids)
    ensures UnusedZero(d', ino, n, ids)
  {
    hide Word, Used, IsIndexPos;
  }

  /** A tree that grew by zeroed blocks has zeros behind its end again. */
  lemma UnusedZeroGrown(d: seq<Block>, d': seq<Block>, ino: InodeRec, ino': InodeRec, n: nat, m: nat, ids: seq<u32>,
            more: seq<u32>)
    requires UnusedZero(d, ino, n, ids) && n <= m && UnusedKept(d, d', ids + more, m)
    requires forall x | x in more :: x < |d| && d[x] == ZeroBlock()
    requires |ino'.direct| == 28 && (forall i | m <= i < 28 :: ino'.direct[i] == ino.direct[i])
    requires (m <= 28 ==> ino'.ind1 == ino.ind1) && (m <= 156 ==> ino'.ind2 == ino.ind2)
    ensures UnusedZero(d', ino', m, ids + more)
  {
    hide Word, Used, IsIndexPos, ZeroBlock;
    var all := ids + more;
    forall p, k | 0 <= p < |all| && IsIndexPos(p) && 0 <= k < 128 && !Used(p, k, m)
      ensures all[p] < |d'| && Word(d'[all[p]], k) == 0
    {
      if p < |ids| {
        if Used(p, k, n) {
          UsedMonotone(p, k, n, m);
        }
        assert Word(d[ids[p]], k) == 0;
      } else {
        assert all[p] in more;
        ZeroWord(k);
      }
    }
  }

  lemma ZeroWord(k: nat)
    requires k < 128
    ensures Word(ZeroBlock(), k) == 0
  {
  }

  /** The data block behind the end of a tree of `n` blocks has a place in an existing index block or
      in the inode unless `n` is one of these. */
  predicate Hole(n: nat) {
    n == 28 || (n >= 156 && (n - 156) % 128 == 0)
  }

  /** Looking up the first block behind the end finds the number 0, except at a hole. */
  lemma BehindTheEnd(d: seq<Block>, ino: InodeRec, n: nat, ids: seq<u32>)
    requires TreeOk(d, ino, n, ids) && UnusedZero(d, ino, n, ids) && !Hole(n)
    ensures n < INDIRECT2_BOUND && BlockIdOf(d, ino, n) == 0
    ensures 28 < n < 156 ==> ino.ind1 == ids[28]
    ensures n > 156 ==> ino.ind2 == ids[157] && Word(d[ids[157]], (n - 156) / 128) == ids[SubPos((n - 156) / 128)]
  {
    hide Word;
    if n > 156 {
      var a, b := (n - 156) / 128, (n - 156) % 128;
      assert SubOk(d, n, ids, a);
      assert IsIndexPos(SubPos(a)) && !Used(SubPos(a), b, n);
    } else if n > 28 {
      assert !Used(28, n - 28, n);
    }
  }

  // Steps of `increase_size` on the plain block array; `ids` is the final list.

  lemma StepDirect(d: seq<Block>, ino: InodeRec, n: nat, ids: seq<u32>)
    requires TreeOk(d, ino, n, ids) && n < 28 && n < |ids|
    ensures TreeOk(d, ino.(direct := ino.direct[n := ids[n]]), n + 1, ids)
  {
  }

  lemma StepInd1(d: seq<Block>, ino: InodeRec, n: nat, ids: seq<u32>, d': seq<Block>)
    requires TreeOk(d, ino, n, ids) && 28 <= n < 156 && n + 1 < |ids| && NoDup(ids)
    requires ino.ind1 == ids[28]
    requires d' == d[ids[28] := PutWord(d[ids[28]], n - 28, ids[n + 1])]
    ensures TreeOk(d', ino, n + 1, ids) && OnlyIndexChanged(d, d', ids)
  {
    hide Word, PutWord;
    PutWordGet(d[ids[28]], n - 28, ids[n + 1]);
    assert IndexBlock(ids, ids[28]) by { assert IsIndexPos(28); }
  }

  /** A new sub-index block is linked into the double-indirect block. */
  lemma StepSub(d: seq<Block>, ino: InodeRec, n: nat, a: nat, ids: seq<u32>, d': seq<Block>)
    requires TreeOk(d, ino, n, ids) && n == 156 + 128 * a && a < 128 && SubPos(a) < |ids| && NoDup(ids)
    requires ino.ind2 == ids[157]
    requires d' == d[ids[157] := PutWord(d[ids[157]], a, ids[SubPos(a)])]
    ensures TreeOk(d', ino, n, ids) && OnlyIndexChanged(d, d', ids)
    ensures Word(d'[ids[157]], a) == ids[SubPos(a)]
  {
    hide Word, PutWord;
    PutWordGet(d[ids[157]], a, ids[SubPos(a)]);
    assert IndexBlock(ids, ids[157]) by { assert IsIndexPos(157); }
    if n > 28 {
      assert ids[28] != ids[157];
    }
    if n > 156 {
      forall a' | 0 <= a' < SubCount(n) ensures SubOk(d', n, ids, a') {
        assert SubOk(d, n, ids, a');
        assert ids[SubPos(a')] != ids[157];
      }
    }
  }

  /** A data block is entered into the current sub-index block. */
  lemma StepLeaf(d: seq<Block>, ino: InodeRec, n: nat, a: nat, b: nat, ids: seq<u32>, d': seq<Block>)
    requires TreeOk(d, ino, n, ids) && n == 156 + 128 * a + b && a < 128 && b < 128
    requires LeafPos(a, b) < |ids| && NoDup(ids)
    requires ino.ind2 == ids[157] && Word(d[ids[157]], a) == ids[SubPos(a)]
    requires d' == d[ids[SubPos(a)] := PutWord(d[ids[SubPos(a)]], b, ids[LeafPos(a, b)])]
    ensures TreeOk(d', ino, n + 1, ids) && OnlyIndexChanged(d, d', ids)
  {
    hide Word, PutWord;
    PutWordGet(d[ids[SubPos(a)]], b, ids[LeafPos(a, b)]);
    assert IndexBlock(ids, ids[SubPos(a)]) by { assert IsIndexPos(SubPos(a)); }
    var m := n + 1;
    assert SubCount(m) == a + 1;
    assert ids[28] != ids[SubPos(a)] && ids[157] != ids[SubPos(a)];
    forall a' | 0 <= a' < SubCount(m) ensures SubOk(d', m, ids, a') {
      if a' < a {
        assert SubOk(d, n, ids, a');
        assert ids[SubPos(a')] != ids[SubPos(a)];
      } else if b > 0 {
        assert SubOk(d, n, ids, a);
      }
    }
  }
}
