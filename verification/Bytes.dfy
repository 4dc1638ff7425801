/** Bytes, fixed-width words and the views a 512-byte block is read through. */
module Bytes {

  type byte = x: int | 0 <= x < 256
  type u32 = x: int | 0 <= x < 0x1_0000_0000
  type u64 = x: int | 0 <= x < 0x1_0000_0000_0000_0000

  const BLOCK_SZ: nat := 512

  type Block = b: seq<byte> | |b| == 512 witness seq(512, _ => 0)

  function ZeroBlock(): (b: Block)
    ensures forall k | 0 <= k < 512 :: b[k] == 0
  {
    seq(512, _ => 0)
  }

  /** The little-endian 32-bit word at byte offset `off`. */
  function U32At(b: seq<byte>, off: nat): u32
    requires off + 4 <= |b|
  {
    var b0: int, b1: int, b2: int, b3: int := b[off], b[off + 1], b[off + 2], b[off + 3];
    b0 + 0x100 * b1 + 0x1_0000 * b2 + 0x100_0000 * b3
  }

  function U32Bytes(v: u32): (s: seq<byte>)
    ensures |s| == 4
  {
    [v % 0x100, v / 0x100 % 0x100, v / 0x1_0000 % 0x100, v / 0x100_0000]
  }

  /** `b` with the bytes from `off` on replaced by `s`. */
  function Splice(b: seq<byte>, off: nat, s: seq<byte>): (r: seq<byte>)
    requires off + |s| <= |b|
    ensures |r| == |b|
    ensures forall k | 0 <= k < |b| :: r[k] == if off <= k < off + |s| then s[k - off] else b[k]
  {
    b[..off] + s + b[off + |s|..]
  }

  lemma U32RoundTrip(v: u32)
    ensures U32At(U32Bytes(v), 0) == v
  {
    var s := U32Bytes(v);
    var q1, q2 := v / 0x100, v / 0x1_0000;
    assert q2 == q1 / 0x100 && v / 0x100_0000 == q2 / 0x100;
  }

  /** A word depends on its own four bytes only. */
  lemma U32AtLocal(b: seq<byte>, off: nat, b': seq<byte>, off': nat)
    requires off + 4 <= |b| && off' + 4 <= |b'|
    requires b[off] == b'[off'] && b[off + 1] == b'[off' + 1]
    requires b[off + 2] == b'[off' + 2] && b[off + 3] == b'[off' + 3]
    ensures U32At(b, off) == U32At(b', off')
  {
  }

  /** An index block seen as 128 words. */
  function Word(b: Block, i: nat): u32
    requires i < 128
  {
    U32At(b, 4 * i)
  }

  /** `count` words from word `from` on. */
  function WordRun(b: Block, from: nat, count: nat): (s: seq<u32>)
    requires from + count <= 128
    ensures |s| == count && forall i | 0 <= i < count :: s[i] == Word(b, from + i)
  {
    seq<u32>(count, i requires 0 <= i < count => Word(b, from + i))
  }

  function PutWord(b: Block, i: nat, v: u32): Block
    requires i < 128
  {
    Splice(b, 4 * i, U32Bytes(v))
  }

  lemma PutWordGet(b: Block, i: nat, v: u32)
    requires i < 128
    ensures Word(PutWord(b, i, v), i) == v
    ensures forall j | 0 <= j < 128 && j != i :: Word(PutWord(b, i, v), j) == Word(b, j)
  {
    var b' := PutWord(b, i, v);
    U32RoundTrip(v);
    U32AtLocal(b', 4 * i, U32Bytes(v), 0);
    forall j | 0 <= j < 128 && j != i ensures Word(b', j) == Word(b, j) {
      U32AtLocal(b', 4 * j, b, 4 * j);
    }
  }
}
