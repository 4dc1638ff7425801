/** Bits of a 64-bit word. */
module Bits {

  function Pow2(n: nat): nat {
    if n == 0 then 1 else 2 * Pow2(n - 1)
  }

  predicate Bit(x: nat, j: nat) {
    if j == 0 then x % 2 == 1 else Bit(x / 2, j - 1)
  }

  /** `x | 1 << p` */
  function SetBit(x: nat, p: nat): nat {
    if p == 0 then x / 2 * 2 + 1 else x % 2 + 2 * SetBit(x / 2, p - 1)
  }

  /** `x.trailing_ones()` */
  function TrailingOnes(x: nat): nat {
    if x % 2 == 0 then 0 else 1 + TrailingOnes(x / 2)
  }

  lemma {:induction false} SetBitSpec(x: nat, p: nat, w: nat)
    requires p < w && x < Pow2(w)
    ensures SetBit(x, p) < Pow2(w)
    ensures forall j: nat :: Bit(SetBit(x, p), j) <==> j == p || Bit(x, j)
    decreases p
  {
    var y := SetBit(x, p);
    if p == 0 {
      assert forall j: nat | j > 0 :: Bit(y, j) == Bit(y / 2, j - 1) && Bit(x, j) == Bit(x / 2, j - 1);
    } else {
      SetBitSpec(x / 2, p - 1, w - 1);
      assert y / 2 == SetBit(x / 2, p - 1) && y % 2 == x % 2;
      forall j: nat ensures Bit(y, j) <==> j == p || Bit(x, j) {
        if j > 0 {
          assert Bit(y, j) == Bit(y / 2, j - 1) && Bit(x, j) == Bit(x / 2, j - 1);
        }
      }
    }
  }

  /** Subtracting a bit that is set clears it and no other. */
  lemma {:induction false} ClearBitSpec(x: nat, p: nat)
    requires Bit(x, p)
    ensures x >= Pow2(p)
    ensures forall j: nat :: Bit(x - Pow2(p), j) <==> j != p && Bit(x, j)
    decreases p
  {
    if p == 0 {
      var y := x - 1;
      assert y / 2 == x / 2;
      forall j: nat ensures Bit(y, j) <==> j != p && Bit(x, j) {
        if j > 0 {
          assert Bit(y, j) == Bit(y / 2, j - 1) && Bit(x, j) == Bit(x / 2, j - 1);
        }
      }
    } else {
      ClearBitSpec(x / 2, p - 1);
      var y := x - Pow2(p);
      assert y / 2 == x / 2 - Pow2(p - 1) && y % 2 == x % 2;
      forall j: nat ensures Bit(y, j) <==> j != p && Bit(x, j) {
        if j > 0 {
          assert Bit(y, j) == Bit(y / 2, j - 1) && Bit(x, j) == Bit(x / 2, j - 1);
        }
      }
    }
  }

  /** In a word that is not all ones the run of trailing ones ends at its least clear bit. */
  lemma {:induction false} TrailingOnesSpec(x: nat, w: nat)
    requires x + 1 < Pow2(w)
    ensures TrailingOnes(x) < w && !Bit(x, TrailingOnes(x))
    ensures forall j | 0 <= j < TrailingOnes(x) :: Bit(x, j)
    decreases w
  {
    if x % 2 == 1 {
      TrailingOnesSpec(x / 2, w - 1);
    }
  }

  lemma {:induction false} AllOnes(x: nat, w: nat)
    requires x + 1 == Pow2(w)
    ensures forall j | 0 <= j < w :: Bit(x, j)
    decreases w
  {
    if w > 0 {
      AllOnes(x / 2, w - 1);
    }
  }

  lemma {:induction false} ZeroBits(j: nat)
    ensures !Bit(0, j)
    decreases j
  {
    if j > 0 {
      ZeroBits(j - 1);
    }
  }

  /** A number above `k` bits of another. */
  lemma {:induction false} ShiftBit(z: nat, x: nat, y: nat, k: nat, p: nat, j: nat)
    requires p == Pow2(k) && z == x * p + y && y < p
    ensures Bit(z, j) <==> if j < k then Bit(y, j) else Bit(x, j - k)
    decreases k
  {
    if k > 0 {
      var half := Pow2(k - 1);
      var h := x * half;
      assert x * p == 2 * h;
      assert z / 2 == h + y / 2 && z % 2 == y % 2;
      if j > 0 {
        ShiftBit(z / 2, x, y / 2, k - 1, half, j - 1);
      }
    }
  }

  /** A number below `2^k` has no bit from `k` on. */
  lemma SmallBits(y: nat, k: nat)
    requires y < Pow2(k)
    ensures forall j: nat | j >= k :: !Bit(y, j)
  {
    forall j: nat | j >= k ensures !Bit(y, j) {
      ShiftBit(y, 0, y, k, Pow2(k), j);
      ZeroBits(j - k);
    }
  }

  lemma Pow2Of32()
    ensures Pow2(32) == 0x1_0000_0000
  {
    assert Pow2(8) == 256;
    assert Pow2(16) == 0x1_0000;
    assert Pow2(24) == 0x100_0000;
  }

  lemma Pow2Of64()
    ensures Pow2(64) == 0x1_0000_0000_0000_0000
  {
    assert Pow2(8) == 256;
    assert Pow2(16) == 0x1_0000;
    assert Pow2(24) == 0x100_0000;
    assert Pow2(32) == 0x1_0000_0000;
    assert Pow2(40) == 0x100_0000_0000;
    assert Pow2(48) == 0x1_0000_0000_0000;
    assert Pow2(56) == 0x100_0000_0000_0000;
  }
}

/** The on-disk bitmap of easy-fs/src/bitmap.rs. */
module BitmapAlloc {
  import opened Basics
  import opened Bytes
  import opened Bits
  import opened BlockCache

  const BLOCK_BITS: nat := 4096

  /** A bitmap block seen as 64 words of 64 bits. */
  function Word64(b: Block, i: nat): u64
    requires i < 64
  {
    var lo: int, hi: int := Word(b, 2 * i), Word(b, 2 * i + 1);
    lo + 0x1_0000_0000 * hi
  }

  function PutWord64(b: Block, i: nat, v: u64): Block
    requires i < 64
  {
    PutWord(PutWord(b, 2 * i, v % 0x1_0000_0000), 2 * i + 1, v / 0x1_0000_0000)
  }

  lemma PutWord64Get(b: Block, i: nat, v: u64)
    requires i < 64
    ensures Word64(PutWord64(b, i, v), i) == v
    ensures forall j | 0 <= j < 64 && j != i :: Word64(PutWord64(b, i, v), j) == Word64(b, j)
  {
    hide Word, PutWord;
    var b1 := PutWord(b, 2 * i, v % 0x1_0000_0000);
    PutWordGet(b, 2 * i, v % 0x1_0000_0000);
    PutWordGet(b1, 2 * i + 1, v / 0x1_0000_0000);
  }

  /** `decomposition` */
  function Decomposition(bit: nat): (nat, nat, nat) {
    var r := bit % BLOCK_BITS;
    (bit / BLOCK_BITS, r / 64, r % 64)
  }

  /** Bit `i` of the bitmap block `b`. */
  predicate BlockBit(b: Block, i: nat)
    requires i < 4096
  {
    Bit(Word64(b, i / 64), i % 64)
  }

  /** Bit `i` of the bitmap that starts at block `start`. */
  predicate BitAt(d: seq<Block>, start: nat, i: nat) {
    start + i / 4096 < |d| && BlockBit(d[start + i / 4096], i % 4096)
  }

  /** Words are stored with the least byte first: bit `j` of a word is in byte `j / 8` of it. */
  lemma WordBits(b: seq<byte>, off: nat, j: nat)
    requires off + 4 <= |b| && j < 32
    ensures Bit(U32At(b, off), j) <==> Bit(b[off + j / 8], j % 8)
  {
    var b0: int, b1: int, b2: int, b3: int := b[off], b[off + 1], b[off + 2], b[off + 3];
    assert Pow2(8) == 256;
    var z2 := b2 + 256 * b3;
    var z1 := b1 + 256 * z2;
    hide Pow2, Bit;
    ShiftBit(U32At(b, off), z1, b0, 8, 256, j);
    if j >= 8 {
      ShiftBit(z1, z2, b1, 8, 256, j - 8);
    }
    if j >= 16 {
      ShiftBit(z2, b3, b2, 8, 256, j - 16);
    }
  }

  /** Bit `i` of a bitmap block is bit `i % 8` of its byte `i / 8`. */
  lemma BlockBitByte(b: Block, i: nat)
    requires i < 4096
    ensures BlockBit(b, i) <==> Bit(b[i / 8], i % 8)
  {
    hide U32At;
    var w, p := i / 64, i % 64;
    var lo: nat, hi: nat := Word(b, 2 * w), Word(b, 2 * w + 1);
    Pow2Of32();
    hide Pow2, Bit;
    ShiftBit(Word64(b, w), hi, lo, 32, 0x1_0000_0000, p);
    if p < 32 {
      WordBits(b, 8 * w, p);
    } else {
      WordBits(b, 8 * w + 4, p - 32);
    }
  }

  lemma ZeroBlockBits(i: nat)
    requires i < 4096
    ensures !BlockBit(ZeroBlock(), i)
  {
    ZeroBits(i % 64);
  }

  /** A block whose bit `at` alone becomes `v` changes bit `4096 * k + at` of the bitmap alone. */
  lemma BlockUpdate(d: seq<Block>, start: nat, blocks: nat, k: nat, b: Block, at: nat, v: bool)
    requires start + blocks <= |d| && k < blocks && at < 4096
    requires forall j | 0 <= j < 4096 :: BlockBit(b, j) == if j == at then v else BlockBit(d[start + k], j)
    ensures forall i | 0 <= i < blocks * 4096 ::
              BitAt(d[start + k := b], start, i) == if i == k * 4096 + at then v else BitAt(d, start, i)
  {
    hide BlockBit;
    forall i | 0 <= i < blocks * 4096
      ensures BitAt(d[start + k := b], start, i) == if i == k * 4096 + at then v else BitAt(d, start, i)
    {
      assert i == i / 4096 * 4096 + i % 4096;
      if i / 4096 == k {
        assert BlockBit(b, i % 4096) == if i % 4096 == at then v else BlockBit(d[start + k], i % 4096);
      }
    }
  }

  /** The bits of block `k` are the bits `4096 * k` to `4096 * k + 4095` of the bitmap. */
  lemma BlockBits(d: seq<Block>, start: nat, k: nat, j: nat)
    requires start + k < |d| && j < 4096
    ensures BitAt(d, start, k * 4096 + j) == BlockBit(d[start + k], j)
  {
    assert (k * 4096 + j) / 4096 == k && (k * 4096 + j) % 4096 == j;
  }

  datatype Bitmap = Bitmap(start: nat, blocks: nat) {

    /** `maximum` */
    function Maximum(): nat {
      blocks * BLOCK_BITS
    }

    /** First fit: the least clear bit is set, and nothing else changes. */
    method Alloc(dev: BlockCacheManager) returns (r: Option<nat>)
      requires dev.Valid() && start + blocks <= |dev.blocks| && |dev.pins| <= 15
      modifies dev
      ensures dev.Valid() && dev.pins == old(dev.pins) && |dev.blocks| == |old(dev.blocks)|
      ensures r.None? ==> dev.blocks == old(dev.blocks) && forall i | 0 <= i < Maximum() :: BitAt(dev.blocks, start, i)
      ensures r.Some? ==>
                && r.value < Maximum()
                && !BitAt(old(dev.blocks), start, r.value)
                && (forall i | 0 <= i < r.value :: BitAt(old(dev.blocks), start, i))
                && (forall i | 0 <= i < Maximum() ::
                      BitAt(dev.blocks, start, i) <==> i == r.value || BitAt(old(dev.blocks), start, i))
                && (forall x | 0 <= x < |dev.blocks| && !(start <= x < start + blocks) ::
                      dev.blocks[x] == old(dev.blocks)[x])
    {
      hide BitAt, BlockBit, BlockCacheManager.Valid;
      ghost var d0 := dev.blocks;
      for k := 0 to blocks
        invariant dev.Valid() && dev.pins == old(dev.pins) && dev.blocks == d0
        invariant forall i | 0 <= i < k * 4096 :: BitAt(d0, start, i)
      {
        var b := dev.Read(start + k);
        var w, pos, b' := AllocInBlock(b);
        dev.Modify(start + k, b');
        if pos.Some? {
          r := Some(k * 4096 + w * 64 + pos.value);
          BlockUpdate(d0, start, blocks, k, b', w * 64 + pos.value, true);
          forall i | k * 4096 <= i <= r.value ensures BitAt(d0, start, i) == (i < r.value) {
            BlockBits(d0, start, k, i - k * 4096);
          }
          return;
        }
        assert d0[start + k := b] == d0;
        forall i | k * 4096 <= i < (k + 1) * 4096 ensures BitAt(d0, start, i) {
          BlockBits(d0, start, k, i - k * 4096);
        }
      }
      r := None;
    }

    /** Clears a set bit; the assertion in the source is the precondition. */
    method Dealloc(dev: BlockCacheManager, bit: nat)
      requires dev.Valid() && start + blocks <= |dev.blocks| && |dev.pins| <= 15
      requires bit < Maximum() && BitAt(dev.blocks, start, bit)
      modifies dev
      ensures dev.Valid() && dev.pins == old(dev.pins) && |dev.blocks| == |old(dev.blocks)|
      ensures forall i | 0 <= i < Maximum() :: BitAt(dev.blocks, start, i) <==>
          i != bit && BitAt(old(dev.blocks), start, i)
      ensures forall x | 0 <= x < |dev.blocks| && !(start <= x < start + blocks) ::
                dev.blocks[x] == old(dev.blocks)[x]
    {
      hide BlockBit, BlockCacheManager.Valid;
      var (k, w, p) := Decomposition(bit);
      var b := dev.Read(start + k);
      var b' := ClearInBlock(b, bit % 4096);
      dev.Modify(start + k, b');
      BlockUpdate(old(dev.blocks), start, blocks, k, b', bit % 4096, false);
    }
  }

  /** The closure of `Bitmap::dealloc` on one block. */
  function ClearInBlock(b: Block, at: nat): (b': Block)
    requires at < 4096 && BlockBit(b, at)
    ensures forall j | 0 <= j < 4096 :: BlockBit(b', j) <==> j != at && BlockBit(b, j)
  {
    hide Word64, PutWord64;
    var (w, p) := (at / 64, at % 64);
    ClearBitSpec(Word64(b, w), p);
    var v := Word64(b, w) - Pow2(p);
    PutWord64Get(b, w, v);
    PutWord64(b, w, v)
  }

  /** The closure of `Bitmap::alloc` on one block: the first word that is not all ones,
      and the least clear bit in it. */
  method AllocInBlock(b: Block) returns (w: nat, pos: Option<nat>, b': Block)
    ensures pos.None? ==> b' == b && forall i | 0 <= i < 4096 :: BlockBit(b, i)
    ensures pos.Some? ==>
              && w < 64 && pos.value < 64 && !BlockBit(b, w * 64 + pos.value)
              && (forall i | 0 <= i < w * 64 + pos.value :: BlockBit(b, i))
              && (forall i | 0 <= i < 4096 :: BlockBit(b', i) <==> i == w * 64 + pos.value || BlockBit(b, i))
  {
    hide Word64, PutWord64;
    Pow2Of64();
    w := 0;
    while w < 64 && Word64(b, w) == 0xFFFF_FFFF_FFFF_FFFF
      invariant w <= 64
      invariant forall i | 0 <= i < w * 64 :: BlockBit(b, i)
    {
      AllOnes(Word64(b, w), 64);
      w := w + 1;
    }
    if w == 64 {
      return w, None, b;
    }
    var x := Word64(b, w);
    TrailingOnesSpec(x, 64);
    var p := TrailingOnes(x);
    SetBitSpec(x, p, 64);
    PutWord64Get(b, w, SetBit(x, p));
    b' := PutWord64(b, w, SetBit(x, p));
    pos := Some(p);
    forall i | 0 <= i < 4096 ensures BlockBit(b', i) <==> i == w * 64 + p || BlockBit(b, i) {
      if i / 64 == w {
        assert i == w * 64 + i % 64;
      }
    }
  }
}
