/** Sv39 addresses and page-table entries (os/src/mm/address.rs, os/src/mm/page_table.rs). */
module Address {
  import opened Bits

  const PAGE_SIZE: nat := 0x1000
  const VPN_COUNT: nat := 0x800_0000            // 2^27 pages of a 39-bit address space
  const VA_COUNT: nat := 0x80_0000_0000         // 2^39
  const PPN_COUNT: nat := 0x1000_0000_0000      // 2^44

  /** `VirtAddr::from(v)`: the low 39 bits. */
  function ToVa(v: nat): nat { v % VA_COUNT }

  function Floor(va: nat): nat { va / PAGE_SIZE }

  /** `ceil`; the source's `self.0 - 1 + PAGE_SIZE` underflows at address 0. */
  function Ceil(va: nat): nat
    requires va > 0
  {
    (va - 1 + PAGE_SIZE) / PAGE_SIZE
  }

  function PageOffset(va: nat): nat { va % PAGE_SIZE }

  /** Pages from `Floor(a)` to `Ceil(b)` are exactly the pages that meet the byte range `[a, b)`. */
  lemma RangeOfPages(a: nat, b: nat, vpn: nat)
    requires b > 0
    ensures Floor(a) <= vpn < Ceil(b) <==> vpn * PAGE_SIZE < b && a < (vpn + 1) * PAGE_SIZE
  {
  }

  /** Level `i` index of a page number. */
  function Index(vpn: nat, i: nat): (k: nat)
    requires i < 3
    ensures k < 512
  {
    if i == 0 then vpn / 0x4_0000 % 512 else if i == 1 then vpn / 512 % 512 else vpn % 512
  }

  /** `indexes`: filled from the last to the first by masking and shifting. */
  method Indexes(vpn: nat) returns (idx: array<nat>)
    ensures fresh(idx) && idx.Length == 3
    ensures forall i | 0 <= i < 3 :: idx[i] == Index(vpn, i)
  {
    idx := new nat[3];
    var v := vpn;
    var i := 3;
    while i > 0
      invariant 0 <= i <= 3
      invariant v == (if i == 3 then vpn else if i == 2 then vpn / 512 else if i == 1 then vpn / 0x4_0000
          else vpn / 0x800_0000)
      invariant forall k | i <= k < 3 :: idx[k] == Index(vpn, k)
    {
      i := i - 1;
      idx[i] := v % 512;
      v := v / 512;
    }
  }

  /** The three indexes determine the page number, so the walk of one page is no other page's. */
  lemma IndexesInjective(a: nat, b: nat)
    requires a < VPN_COUNT && b < VPN_COUNT
    ensures Index(a, 0) == Index(b, 0) && Index(a, 1) == Index(b, 1) && Index(a, 2) == Index(b, 2) ==> a == b
  {
    hide Index;
    IndexesDetermine(a);
    IndexesDetermine(b);
  }

  lemma IndexesDetermine(a: nat)
    requires a < VPN_COUNT
    ensures a == Index(a, 0) * 0x4_0000 + Index(a, 1) * 512 + Index(a, 2)
  {
    var q := a / 512;
    assert q / 512 == a / 0x4_0000 < 512;
    assert q == q / 512 * 512 + q % 512;
  }

  // Page-table entries: the page number from bit 10 up, eight flag bits at the bottom.

  type Flags = f: int | 0 <= f < 256
  const V: Flags := 1
  const R: Flags := 2
  const X: Flags := 8

  function WithV(f: Flags): Flags { if f % 2 == 1 then f else f + 1 }

  /** The entry's flags are those asked for and the valid bit, bit 0. */
  lemma WithVBits(f: Flags)
    ensures forall j: nat :: Bit(WithV(f), j) <==> j == 0 || Bit(f, j)
  {
    assert WithV(f) / 2 == f / 2;
    forall j: nat ensures Bit(WithV(f), j) <==> j == 0 || Bit(f, j) {
      if j > 0 {
        assert Bit(WithV(f), j) == Bit(WithV(f) / 2, j - 1);
      }
    }
  }

  /** `PageTableEntry::new` */
  function Pte(ppn: nat, f: Flags): nat { ppn * 1024 + f }
  function PpnOf(bits: nat): nat { bits / 1024 % PPN_COUNT }
  function FlagsOf(bits: nat): Flags { bits % 256 }
  predicate IsValid(bits: nat) { bits % 2 == 1 }

  lemma HighPart(ppn: nat, f: Flags)
    ensures (ppn * 1024 + f) / 1024 == ppn
  {
  }

  lemma LowByte(k: nat, f: Flags)
    ensures (k * 256 + f) % 256 == f
  {
    assert (k * 256 + f) / 256 == k;
  }

  lemma Parity(k: nat, f: Flags)
    ensures (k * 2 + f) % 2 == f % 2
  {
  }

  /** The frame number is in the entry from bit 10 on, the flags in bits 0 to 7. */
  lemma PteBits(ppn: nat, f: Flags)
    ensures forall j: nat :: Bit(Pte(ppn, f), j) <==> if j < 10 then j < 8 && Bit(f, j) else Bit(ppn, j - 10)
  {
    assert Pow2(8) == 256 && Pow2(10) == 1024;
    hide Pow2, Bit;
    SmallBits(f, 8);
    forall j: nat ensures Bit(Pte(ppn, f), j) <==> if j < 10 then j < 8 && Bit(f, j) else Bit(ppn, j - 10) {
      ShiftBit(Pte(ppn, f), ppn, f, 10, 1024, j);
    }
  }

  /** Reading them back from any entry: eight flag bits, and the 44 bits from bit 10 on. */
  lemma EntryBits(bits: nat)
    ensures forall j: nat :: Bit(FlagsOf(bits), j) <==> j < 8 && Bit(bits, j)
    ensures forall j: nat :: Bit(PpnOf(bits), j) <==> j < 44 && Bit(bits, j + 10)
  {
    assert Pow2(8) == 256 && Pow2(10) == 1024;
    Pow2Of44();
    hide Pow2, Bit;
    var q := bits / 1024;
    SmallBits(bits % 256, 8);
    SmallBits(q % PPN_COUNT, 44);
    forall j: nat ensures Bit(FlagsOf(bits), j) <==> j < 8 && Bit(bits, j) {
      ShiftBit(bits, bits / 256, bits % 256, 8, 256, j);
    }
    forall j: nat ensures Bit(PpnOf(bits), j) <==> j < 44 && Bit(bits, j + 10) {
      ShiftBit(bits, q, bits % 1024, 10, 1024, j + 10);
      ShiftBit(q, q / PPN_COUNT, q % PPN_COUNT, 44, PPN_COUNT, j);
    }
  }

  lemma Pow2Of44()
    ensures Pow2(44) == PPN_COUNT
  {
    Pow2Of32();
    assert Pow2(40) == 0x100_0000_0000;
  }

  lemma PteRoundTrip(ppn: nat, f: Flags)
    requires ppn < PPN_COUNT
    ensures PpnOf(Pte(ppn, f)) == ppn && FlagsOf(Pte(ppn, f)) == f && (IsValid(Pte(ppn, f)) <==> f % 2 == 1)
  {
    var x := Pte(ppn, f);
    assert PpnOf(x) == ppn by { HighPart(ppn, f); }
    assert FlagsOf(x) == f by {
      LowByte(4 * ppn, f);
      assert 4 * ppn * 256 + f == x;
    }
    assert IsValid(x) <==> f % 2 == 1 by {
      Parity(512 * ppn, f);
      assert 512 * ppn * 2 + f == x;
    }
  }
}
