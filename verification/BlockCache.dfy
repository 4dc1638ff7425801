/** The write-back block cache of easy-fs/src/block_cache.rs, over one block device. */
module BlockCache {
  import opened Bytes

  const BLOCK_CACHE_SIZE: nat := 16

  /** One queue entry: the block's cached bytes and its dirty flag. */
  datatype Entry = Entry(id: nat, cache: Block, modified: bool)

  ghost predicate DistinctIds(queue: seq<Entry>) {
    forall i, j | 0 <= i < j < |queue| :: queue[i].id != queue[j].id
  }

  ghost predicate Holds(queue: seq<Entry>, id: nat) {
    exists i | 0 <= i < |queue| :: queue[i].id == id
  }

  /** Every access goes to the cached copy if there is one, else to the device. */
  ghost predicate Coherent(device: seq<Block>, queue: seq<Entry>, blocks: seq<Block>) {
    && |blocks| == |device|
    && (forall i | 0 <= i < |queue| ::
          && queue[i].id < |device|
          && blocks[queue[i].id] == queue[i].cache
          && (!queue[i].modified ==> device[queue[i].id] == queue[i].cache))
    && (forall x | 0 <= x < |device| && !Holds(queue, x) :: blocks[x] == device[x])
  }

  /** The condition of the "Run out of BlockCache!" panic. */
  ghost predicate OutOfCache(queue: seq<Entry>, pins: multiset<nat>, id: nat) {
    !Holds(queue, id) && |queue| == BLOCK_CACHE_SIZE && forall i | 0 <= i < |queue| :: queue[i].id in pins
  }

  lemma {:induction false} DistinctMembersBound(queue: seq<Entry>, s: set<nat>)
    requires DistinctIds(queue) && forall i | 0 <= i < |queue| :: queue[i].id in s
    ensures |queue| <= |s|
    decreases |queue|
  {
    if |queue| > 0 {
      var last := queue[|queue| - 1].id;
      DistinctMembersBound(queue[..|queue| - 1], s - {last});
    }
  }

  /** The entries that some handle keeps alive. */
  ghost function Pinned(pins: multiset<nat>): set<nat> {
    set p | p in pins
  }

  lemma {:induction false} PinnedBound(pins: multiset<nat>)
    ensures |Pinned(pins)| <= |pins|
    decreases |pins|
  {
    if pins != multiset{} {
      var p :| p in pins;
      PinnedBound(pins - multiset{p});
      assert Pinned(pins) <= Pinned(pins - multiset{p}) + {p};
      SubsetSize(Pinned(pins), Pinned(pins - multiset{p}) + {p});
    }
  }

  lemma {:induction false} SubsetSize(a: set<nat>, b: set<nat>)
    requires a <= b
    ensures |a| <= |b|
  {
    assert b == a + (b - a);
  }

  /** With at most 15 pinned entries (however many handles each) the panic is unreachable. */
  lemma PanicUnreachable(queue: seq<Entry>, pins: multiset<nat>, id: nat)
    requires DistinctIds(queue) && |Pinned(pins)| <= 15
    ensures !OutOfCache(queue, pins, id)
  {
    if OutOfCache(queue, pins, id) {
      DistinctMembersBound(queue, Pinned(pins));
    }
  }

  lemma SameHolds(q: seq<Entry>, q': seq<Entry>)
    requires |q| == |q'| && forall i | 0 <= i < |q| :: q[i].id == q'[i].id
    ensures forall x :: Holds(q, x) <==> Holds(q', x)
  {
    forall x | Holds(q, x) ensures Holds(q', x) {
      var i :| 0 <= i < |q| && q[i].id == x;
      assert q'[i].id == x;
    }
  }

  /** Dropping a clean entry changes neither the view nor the other entries. */
  lemma DropEntry(device: seq<Block>, queue: seq<Entry>, blocks: seq<Block>, k: nat)
    requires DistinctIds(queue) && Coherent(device, queue, blocks) && k < |queue| && !queue[k].modified
    ensures
      var q := queue[..k] + queue[k + 1..];
      && DistinctIds(q)
      && Coherent(device, q, blocks)
      && forall x :: Holds(q, x) <==> Holds(queue, x) && x != queue[k].id
  {
    var q := queue[..k] + queue[k + 1..];
    forall j | 0 <= j < |q| ensures q[j] == queue[if j < k then j else j + 1] {}
    forall x | Holds(queue, x) && x != queue[k].id ensures Holds(q, x) {
      var i :| 0 <= i < |queue| && queue[i].id == x;
      assert q[if i < k then i else i - 1].id == x;
    }
    forall x | Holds(q, x) ensures Holds(queue, x) && x != queue[k].id {
      var j :| 0 <= j < |q| && q[j].id == x;
      assert queue[if j < k then j else j + 1].id == x;
    }
  }

  /** Loading an uncached block changes nothing but the queue. */
  lemma PushEntry(device: seq<Block>, queue: seq<Entry>, blocks: seq<Block>, id: nat)
    requires DistinctIds(queue) && Coherent(device, queue, blocks) && id < |device| && !Holds(queue, id)
    ensures
      var q := queue + [Entry(id, device[id], false)];
      && DistinctIds(q)
      && Coherent(device, q, blocks)
      && forall x :: Holds(q, x) <==> Holds(queue, x) || x == id
  {
    var q := queue + [Entry(id, device[id], false)];
    assert q[|queue|].id == id;
    forall x | Holds(queue, x) ensures Holds(q, x) {
      var i :| 0 <= i < |queue| && queue[i].id == x;
      assert q[i].id == x;
    }
  }

  class BlockCacheManager {
    var device: seq<Block>        // what read_block and write_block see
    var queue: seq<Entry>
    var pins: multiset<nat>       // outstanding handles: strong_count(entry) == 1 + pins[entry.id]
    ghost var blocks: seq<Block>  // the plain block array this object stands for

    ghost predicate Valid()
      reads this
    {
      && |queue| <= BLOCK_CACHE_SIZE
      && DistinctIds(queue)
      && Coherent(device, queue, blocks)
      && (forall p | p in pins :: Holds(queue, p))
    }

    /** The device itself holds the current contents: losing the cache loses nothing. */
    ghost predicate Clean()
      reads this
    {
      device == blocks
    }

    constructor (dev: seq<Block>)
      ensures Valid() && blocks == dev && device == dev && pins == multiset{}
    {
      device, queue, pins, blocks := dev, [], multiset{}, dev;
    }

    /** Position of a block's entry, or the queue length. */
    method Find(id: nat) returns (k: nat)
      requires Valid()
      ensures k <= |queue|
      ensures k < |queue| ==> queue[k].id == id
      ensures k == |queue| <==> !Holds(queue, id)
    {
      k := 0;
      while k < |queue|
        invariant k <= |queue| && forall i | 0 <= i < k :: queue[i].id != id
      {
        if queue[k].id == id {
          return;
        }
        k := k + 1;
      }
    }

    /** `BlockCache::sync`: a dirty entry is written to the device and becomes clean. */
    method Sync(k: nat)
      requires Valid() && k < |queue|
      modifies this`device, this`queue
      ensures Valid() && |device| == old(|device|)
      ensures queue == old(queue)[k := old(queue)[k].(modified := false)]
      ensures device == old(device)[old(queue)[k].id := blocks[old(queue)[k].id]]
    {
      var e := queue[k];
      if e.modified {
        queue := queue[k := e.(modified := false)];
        device := device[e.id := e.cache];
        SameHolds(old(queue), queue);
      } else {
        assert device[e.id := e.cache] == device;
        assert queue[k := e] == queue;
      }
    }

    /** Eviction of an entry nobody holds: dropping the cache syncs it first. */
    method Evict(k: nat)
      requires Valid() && k < |queue| && queue[k].id !in pins
      modifies this`device, this`queue
      ensures Valid() && |device| == old(|device|) && |queue| == old(|queue|) - 1
      ensures forall x :: Holds(queue, x) <==> Holds(old(queue), x) && x != old(queue)[k].id
      ensures old(Clean()) ==> Clean()
    {
      Sync(k);
      SameHolds(old(queue), queue);
      DropEntry(device, queue, blocks, k);
      queue := queue[..k] + queue[k + 1..];
    }

    /** `get_block_cache`: afterwards the caller holds one more handle on a cached block. */
    method GetBlockCache(id: nat)
      requires Valid() && id < |blocks| && !OutOfCache(queue, pins, id)
      modifies this`device, this`queue, this`pins
      ensures Valid() && pins == old(pins) + multiset{id} && Holds(queue, id)
      ensures old(Clean()) ==> Clean()
    {
      var k := Find(id);
      if k == |queue| {
        if |queue| == BLOCK_CACHE_SIZE {
          var e := 0;
          while queue[e].id in pins
            invariant 0 <= e < |queue|
            invariant forall i | 0 <= i < e :: queue[i].id in pins
            decreases |queue| - e
          {
            e := e + 1;
          }
          Evict(e);
        }
        PushEntry(device, queue, blocks, id);
        queue := queue + [Entry(id, device[id], false)];
      }
      pins := pins + multiset{id};
    }

    /** `get_block_cache` where the panic is unreachable. */
    method Get(id: nat)
      requires Valid() && id < |blocks| && |Pinned(pins)| <= 15
      modifies this`device, this`queue, this`pins
      ensures Valid() && pins == old(pins) + multiset{id} && (old(Clean()) ==> Clean())
    {
      PanicUnreachable(queue, pins, id);
      GetBlockCache(id);
    }

    /** Dropping a handle. */
    method Release(id: nat)
      requires Valid() && id in pins
      modifies this`pins
      ensures Valid() && pins == old(pins) - multiset{id}
    {
      pins := pins - multiset{id};
    }

    /** `BlockCache::read` through a held handle. */
    method ReadHeld(id: nat) returns (b: Block)
      requires Valid() && id in pins
      ensures id < |blocks| && b == blocks[id]
    {
      var k := Find(id);
      b := queue[k].cache;
    }

    /** `BlockCache::modify` through a held handle; the closure's result is `b`. */
    method ModifyHeld(id: nat, b: Block)
      requires Valid() && id in pins
      modifies this`queue, this`blocks
      ensures Valid() && id < |old(blocks)| && blocks == old(blocks)[id := b]
    {
      var k := Find(id);
      ghost var q := queue;
      queue := queue[k := Entry(id, b, true)];
      blocks := blocks[id := b];
      SameHolds(q, queue);
    }

    /** A `modify` closure that only reads: the entry becomes dirty and nothing else happens. */
    method TouchHeld(id: nat, b: Block)
      requires Valid() && id in pins && id < |blocks| && b == blocks[id]
      modifies this`queue, this`blocks
      ensures Valid() && blocks == old(blocks)
    {
      hide Valid;
      ModifyHeld(id, b);
      assert old(blocks)[id := b] == old(blocks);
    }

    /** `get_block_cache(id).lock().read(0, ..)` as one statement. */
    method Read(id: nat) returns (b: Block)
      requires Valid() && id < |blocks| && |pins| <= 15
      modifies this`device, this`queue, this`pins
      ensures Valid() && pins == old(pins) && b == blocks[id] && (old(Clean()) ==> Clean())
    {
      hide Valid;
      PinnedBound(pins);
      Get(id);
      b := ReadHeld(id);
      Release(id);
    }

    /** `get_block_cache(id).lock().modify(0, ..)` as one statement. */
    method Modify(id: nat, b: Block)
      requires Valid() && id < |blocks| && |pins| <= 15
      modifies this
      ensures Valid() && pins == old(pins) && blocks == old(blocks)[id := b]
    {
      hide Valid;
      PinnedBound(pins);
      Get(id);
      ModifyHeld(id, b);
      Release(id);
    }

    /** `block_cache_sync_all`: the device now equals the plain array. */
    method SyncAll()
      requires Valid()
      modifies this`device, this`queue
      ensures Valid() && Clean()
    {
      var k := 0;
      while k < |queue|
        invariant Valid() && k <= |queue| == |old(queue)|
        invariant forall i | 0 <= i < k :: !queue[i].modified
      {
        Sync(k);
        k := k + 1;
      }
      forall x | 0 <= x < |device| ensures device[x] == blocks[x] {
        if Holds(queue, x) {
          var i :| 0 <= i < |queue| && queue[i].id == x;
        }
      }
    }
  }

  // Runs over the public interface, compared with the same run on a plain block array.

  datatype Op = Get(id: nat) | Drop(id: nat) | Load(id: nat) | Store(id: nat, b: Block) | Sync

  /** The plain array after a run, and what its loads returned. */
  function PlainRun(blocks: seq<Block>, ops: seq<Op>): (r: (seq<Block>, seq<Block>))
    ensures |r.0| == |blocks|
    decreases |ops|
  {
    if ops == [] then (blocks, []) else
    match ops[0]
    case Load(id) =>
      var rest := PlainRun(blocks, ops[1..]);
      (rest.0, if id < |blocks| then [blocks[id]] + rest.1 else rest.1)
    case Store(id, b) => PlainRun(if id < |blocks| then blocks[id := b] else blocks, ops[1..])
    case _ => PlainRun(blocks, ops[1..])
  }

  /** What a block holds after a run: what was stored last, or what it held before. */
  function LastStored(blocks: seq<Block>, ops: seq<Op>, id: nat): Block
    requires id < |blocks|
  {
    if ops == [] then blocks[id]
    else
      match ops[|ops| - 1]
      case Store(x, b) => if x == id then b else LastStored(blocks, ops[..|ops| - 1], id)
      case _ => LastStored(blocks, ops[..|ops| - 1], id)
  }

  lemma {:induction false} PlainSnoc(blocks: seq<Block>, ops: seq<Op>, op: Op)
    ensures PlainRun(blocks, ops + [op]).0 == PlainRun(PlainRun(blocks, ops).0, [op]).0
    ensures PlainRun(blocks, ops + [op]).1 == PlainRun(blocks, ops).1 + PlainRun(PlainRun(blocks, ops).0, [op]).1
    decreases |ops|
  {
    if ops == [] {
      assert [] + [op] == [op];
    } else {
      var rest := (ops + [op])[1..];
      assert rest == ops[1..] + [op] && (ops + [op])[0] == ops[0];
      match ops[0]
      case Store(id, b) => PlainSnoc(if id < |blocks| then blocks[id := b] else blocks, ops[1..], op);
      case _ => PlainSnoc(blocks, ops[1..], op);
    }
  }

  lemma PlainOne(blocks: seq<Block>, op: Op)
    ensures PlainRun(blocks, [op]).0 == if op.Store? && op.id < |blocks| then blocks[op.id := op.b] else blocks
    ensures PlainRun(blocks, [op]).1 == if op.Load? && op.id < |blocks| then [blocks[op.id]] else []
  {
    assert [op][1..] == [];
  }

  /** On a plain array a block holds what was stored last, and a load returns that. */
  lemma {:induction false} LastStoreCounts(blocks: seq<Block>, ops: seq<Op>, id: nat)
    requires id < |blocks|
    ensures PlainRun(blocks, ops).0[id] == LastStored(blocks, ops, id)
    ensures PlainRun(blocks, ops + [Load(id)]).1 == PlainRun(blocks, ops).1 + [LastStored(blocks, ops, id)]
  {
    hide PlainRun;
    PlainNone(blocks);
    if ops != [] {
      var init, op := ops[..|ops| - 1], ops[|ops| - 1];
      assert ops == init + [op];
      LastStoreCounts(blocks, init, id);
      PlainSnoc(blocks, init, op);
      PlainOne(PlainRun(blocks, init).0, op);
    }
    PlainSnoc(blocks, ops, Load(id));
    PlainOne(PlainRun(blocks, ops).0, Load(id));
  }

  lemma PlainNone(blocks: seq<Block>)
    ensures PlainRun(blocks, []) == (blocks, [])
  {
  }

  /** Runs that pin a new block only while at most 15 are pinned, and touch only blocks they hold. */
  ghost predicate Legal(n: nat, pins: multiset<nat>, ops: seq<Op>)
    decreases |ops|
  {
    ops == [] ||
    match ops[0]
    case Get(id) => id < n && |Pinned(pins)| <= 15 && Legal(n, pins + multiset{id}, ops[1..])
    case Drop(id) => id in pins && Legal(n, pins - multiset{id}, ops[1..])
    case Load(id) => id in pins && Legal(n, pins, ops[1..])
    case Store(id, _) => id in pins && Legal(n, pins, ops[1..])
    case Sync => Legal(n, pins, ops[1..])
  }

  /** Cache coherence over whole runs: loads return what the plain array would, the final
      contents are the plain array's, and the queue and single-copy bounds still hold. */
  method Run(m: BlockCacheManager, ops: seq<Op>) returns (loads: seq<Block>)
    requires m.Valid() && Legal(|m.blocks|, m.pins, ops)
    modifies m
    ensures m.Valid()
    ensures m.blocks == PlainRun(old(m.blocks), ops).0 && loads == PlainRun(old(m.blocks), ops).1
    ensures ops != [] && ops[|ops| - 1] == Sync ==> m.Clean()
  {
    hide BlockCacheManager.Valid;
    loads := [];
    var i := 0;
    assert ops[0..] == ops;
    while i < |ops|
      invariant 0 <= i <= |ops| && m.Valid() && |m.blocks| == |old(m.blocks)|
      invariant Legal(|m.blocks|, m.pins, ops[i..])
      invariant PlainRun(old(m.blocks), ops).0 == PlainRun(m.blocks, ops[i..]).0
      invariant PlainRun(old(m.blocks), ops).1 == loads + PlainRun(m.blocks, ops[i..]).1
      invariant i > 0 && ops[i - 1] == Sync ==> m.Clean()
    {
      assert ops[i..][1..] == ops[i + 1..];
      match ops[i] {
        case Get(id) =>
          m.Get(id);
        case Drop(id) => m.Release(id);
        case Load(id) =>
          var b := m.ReadHeld(id);
          loads := loads + [b];
        case Store(id, b) =>
          m.ModifyHeld(id, b);
        case Sync => m.SyncAll();
      }
      i := i + 1;
    }
  }
}
