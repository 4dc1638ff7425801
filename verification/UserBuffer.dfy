/** Buffers of another address space: `translated_byte_buffer` and the iterator over its slices
    (os/src/mm/page_table.rs). */
module UserBuffers {
  import opened Basics
  import opened Address
  import opened PageTables

  /** A slice of physical memory: bytes `lo` to `hi` of one frame. */
  datatype Slice = Slice(ppn: nat, lo: nat, hi: nat)

  const WORD: nat := 0x1_0000_0000_0000_0000   // 2^64
  const HALF: nat := 0x40_0000_0000             // 2^38

  /** `usize::from(VirtAddr)`: bit 38 is extended upwards. */
  function FromVa(va: nat): nat
    requires va <= VA_COUNT
  {
    if va >= HALF then va + (WORD - VA_COUNT) else va
  }

  /** Where an iteration of the loop leaves `start`. */
  function StepTo(start: nat, end: nat): (next: nat)
    requires start < end
  {
    FromVa(EndVa(start, end))
  }

  /** The end of the page of `start`, or `end` if that comes first, as addresses of 39 bits. */
  function EndVa(start: nat, end: nat): (endVa: nat)
    ensures endVa <= ToVa(end) < VA_COUNT
  {
    var pageEnd := (Floor(ToVa(start)) + 1) * PAGE_SIZE;
    if pageEnd <= ToVa(end) then pageEnd else ToVa(end)
  }

  /** The length of the slice that an iteration takes; the source panics if it is negative. */
  function SliceLen(start: nat, end: nat): int {
    var off := PageOffset(EndVa(start, end));
    (if off == 0 then PAGE_SIZE else off) - PageOffset(ToVa(start))
  }

  /** The first iteration panics exactly when the end, in 39 bits, is below the start and further
      from the front of its page by less than the start is, but not at the front. */
  lemma PanicIff(start: nat, end: nat)
    ensures SliceLen(start, end) < 0 <==>
            ToVa(end) < ToVa(start) && 0 < PageOffset(ToVa(end)) < PageOffset(ToVa(start))
  {
    InPage(ToVa(start), EndVa(start, end), ToVa(end));
  }

  /** The ranges on which the loop ends and takes no empty slice. */
  predicate Ends(ptr: nat, len: nat) {
    && ptr + len < WORD
    && (len > 0 ==> ptr + len < VA_COUNT || HALF <= ToVa(ptr + len))
    && (len > 0 ==> SliceLen(ptr, ptr + len) > 0)
  }

  /** The end lies in the top 2^39 addresses, where extending bit 38 changes nothing. */
  predicate Top(end: nat) {
    end >= WORD - VA_COUNT
  }

  /** How many bytes of the range the loop gets to see. In 39 bits the range may seem to end before it
      starts, and then the first slice is all. Else it is the whole distance if the range ends by 2^38
      or at the top, and if not, up to 2^38, or up to the end of the first page when it starts
      behind that. */
  function Reached(ptr: nat, len: nat): nat
    requires Ends(ptr, len)
  {
    var start, end := ToVa(ptr), ToVa(ptr + len);
    if len == 0 then 0
    else if end <= start then SliceLen(ptr, ptr + len)
    else if Top(ptr + len) || end <= HALF then end - start
    else if start < HALF then HALF - start
    else Min(end - start, PAGE_SIZE - PageOffset(start))
  }

  /** The whole range is translated if and only if it is empty, or contains no multiple of 2^39 behind
      its first byte and lies at the top, ends by 2^38 or fits one page. */
  lemma CompleteIff(ptr: nat, len: nat)
    requires Ends(ptr, len)
    ensures Reached(ptr, len) == len <==>
            || len == 0
            || (ptr / VA_COUNT == (ptr + len) / VA_COUNT &&
                (Top(ptr + len) || ToVa(ptr + len) <= HALF || PageOffset(ToVa(ptr)) + len <= PAGE_SIZE))
  {
    Distance(ptr, ptr + len);
    ReachedBound(ptr, len);
    if ToVa(ptr) < HALF {
      PageBelowHalf(ToVa(ptr));
    }
  }

  /** Between two multiples of 2^39 distances look the same in 39 bits, and only there. */
  lemma Distance(a: nat, b: nat)
    requires a <= b
    ensures a / VA_COUNT == b / VA_COUNT ==> b - a == ToVa(b) - ToVa(a)
    ensures a / VA_COUNT != b / VA_COUNT ==> b - a >= ToVa(b) - ToVa(a) + VA_COUNT
  {
    var p, q := a / VA_COUNT, b / VA_COUNT;
    assert a == p * VA_COUNT + ToVa(a) && b == q * VA_COUNT + ToVa(b);
    if p != q {
      assert p + 1 <= q;
      assert (q - p) * VA_COUNT >= VA_COUNT;
    }
  }

  lemma VaPlus(v: nat, d: nat)
    requires ToVa(v) + d < VA_COUNT
    ensures ToVa(v + d) == ToVa(v) + d
  {
    var q := v / VA_COUNT;
    assert v + d == q * VA_COUNT + (ToVa(v) + d);
  }

  /** Where an end lies in relation to the addresses with and without extended bits. */
  lemma EndFacts(end: nat)
    requires end < WORD
    ensures Top(end) ==> end == ToVa(end) + (WORD - VA_COUNT)
    ensures end < VA_COUNT <==> end == ToVa(end)
    ensures !Top(end) ==> forall va: nat | HALF <= va <= VA_COUNT :: FromVa(va) >= end
    ensures end >= VA_COUNT ==> forall va: nat | va < HALF :: FromVa(va) < end
  {
    assert WORD - VA_COUNT == 0x1ff_ffff * VA_COUNT;
    if Top(end) {
      assert end / VA_COUNT == 0x1ff_ffff;
    }
  }

  /** The other ranges, `NeverEnds` aside: they contain a multiple of 2^39, and the loop takes one
      slice, which is empty or makes the source panic. */
  lemma OneSlice(ptr: nat, len: nat)
    requires len > 0 && ptr + len < WORD && (ptr + len < VA_COUNT || HALF <= ToVa(ptr + len))
    ensures !Ends(ptr, len) <==>
            ToVa(ptr + len) <= ToVa(ptr) && 0 < PageOffset(ToVa(ptr + len)) <= PageOffset(ToVa(ptr))
    ensures !Ends(ptr, len) ==>
            ptr / VA_COUNT != (ptr + len) / VA_COUNT && StepTo(ptr, ptr + len) >= ptr + len
  {
    var end := ptr + len;
    EndFacts(end);
    Distance(ptr, end);
    InPage(ToVa(ptr), EndVa(ptr, end), ToVa(end));
  }

  lemma PageBelowHalf(va: nat)
    requires va < HALF
    ensures va - PageOffset(va) + PAGE_SIZE <= HALF
  {
    assert va == va / PAGE_SIZE * PAGE_SIZE + PageOffset(va) && HALF == 0x400_0000 * PAGE_SIZE;
  }

  lemma VaBack(va: nat)
    requires va < VA_COUNT
    ensures ToVa(FromVa(va)) == va
  {
    assert WORD - VA_COUNT == 0x1ff_ffff * VA_COUNT;
  }

  /** `start` after `n` iterations, as long as the loop goes on. */
  ghost function StartAfter(ptr: nat, end: nat, n: nat): nat {
    if n == 0 then ptr
    else
      var start := StartAfter(ptr, end, n - 1);
      if start < end then StepTo(start, end) else start
  }

  /** A non-empty range that ends at or above 2^39 with bit 38 of its end clear: the first iteration
      panics, or the loop goes on for ever, no number of iterations bringing `start` up to the end and
      no slice making it panic. */
  lemma {:induction false} NeverEnds(ptr: nat, len: nat, n: nat)
    requires len > 0 && VA_COUNT <= ptr + len < WORD && ToVa(ptr + len) < HALF
    ensures
      var start := StartAfter(ptr, ptr + len, n);
      SliceLen(ptr, ptr + len) < 0 || (start < ptr + len && SliceLen(start, ptr + len) >= 0)
    ensures n > 0 ==> ToVa(StartAfter(ptr, ptr + len, n)) <= ToVa(ptr + len)
  {
    var end := ptr + len;
    EndFacts(end);
    if n > 0 {
      NeverEnds(ptr, len, n - 1);
      var start := StartAfter(ptr, end, n - 1);
      VaBack(EndVa(start, end));
      PanicIff(StartAfter(ptr, end, n), end);
    }
  }

  /** Physical byte of a virtual address. */
  ghost function Phys(mem: map<nat, Frame>, root: nat, v: nat): nat {
    match Mapping(mem, root, Floor(ToVa(v)))
    case Some(e) => PpnOf(e) * PAGE_SIZE + PageOffset(ToVa(v))
    case None => 0
  }

  ghost predicate AllMapped(mem: map<nat, Frame>, root: nat, ptr: nat, len: nat) {
    forall v: nat | ptr <= v < ptr + len :: Mapping(mem, root, Floor(ToVa(v))).Some?
  }

  /** Physical bytes of a slice, of a list of slices, of a virtual range. */
  function BytesOf(s: Slice): (r: seq<nat>)
    requires s.lo <= s.hi
    ensures |r| == s.hi - s.lo && forall k | 0 <= k < |r| :: r[k] == s.ppn * PAGE_SIZE + s.lo + k
  {
    seq(s.hi - s.lo, k => s.ppn * PAGE_SIZE + s.lo + k)
  }

  predicate NonEmpty(v: seq<Slice>) {
    forall i | 0 <= i < |v| :: v[i].lo < v[i].hi <= PAGE_SIZE
  }

  function Flat(v: seq<Slice>): seq<nat>
    requires NonEmpty(v)
  {
    if v == [] then [] else Flat(v[..|v| - 1]) + BytesOf(v[|v| - 1])
  }

  ghost function Bytes(mem: map<nat, Frame>, root: nat, ptr: nat, len: nat): (r: seq<nat>)
    ensures |r| == len && forall k | 0 <= k < len :: r[k] == Phys(mem, root, ptr + k)
  {
    seq<nat>(len, k requires 0 <= k < len => Phys(mem, root, ptr + k))
  }

  /** Inside one page virtual addresses move with physical ones. */
  lemma PageRun(mem: map<nat, Frame>, root: nat, v: nat, n: nat)
    requires Mapping(mem, root, Floor(ToVa(v))).Some? && n > 0 && PageOffset(ToVa(v)) + n <= PAGE_SIZE
    ensures Bytes(mem, root, v, n) ==
            BytesOf(Slice(PpnOf(Mapping(mem, root, Floor(ToVa(v))).value), PageOffset(ToVa(v)),
              PageOffset(ToVa(v)) + n))
  {
    hide Mapping, PpnOf;
    var a := Bytes(mem, root, v, n);
    var b := BytesOf(Slice(PpnOf(Mapping(mem, root, Floor(ToVa(v))).value), PageOffset(ToVa(v)),
      PageOffset(ToVa(v)) + n));
    forall k | 0 <= k < n ensures a[k] == b[k] {
      SamePage(v, k);
    }
  }

  lemma SamePage(v: nat, k: nat)
    requires PageOffset(ToVa(v)) + k < PAGE_SIZE
    ensures Floor(ToVa(v + k)) == Floor(ToVa(v)) && PageOffset(ToVa(v + k)) == PageOffset(ToVa(v)) + k
  {
    var a := v % VA_COUNT;
    assert a == a / PAGE_SIZE * PAGE_SIZE + a % PAGE_SIZE;
    assert a / PAGE_SIZE <= VA_COUNT / PAGE_SIZE - 1;
    assert a + k < VA_COUNT;
    assert (v + k) % VA_COUNT == a + k;
  }

  lemma BytesConcat(mem: map<nat, Frame>, root: nat, ptr: nat, m: nat, n: nat)
    ensures Bytes(mem, root, ptr, m) + Bytes(mem, root, ptr + m, n) == Bytes(mem, root, ptr, m + n)
  {
    hide Phys;
  }

  /** `translated_byte_buffer`: non-empty slices that together are exactly the physical bytes of the
      reached part of the virtual range, in order. */
  method TranslatedByteBuffer(pt: PageTable, pm: PhysicalMemory, ptr: nat, len: nat) returns (v: seq<Slice>)
    requires pt.Valid(pm) && Ends(ptr, len) && AllMapped(pm.mem, pt.root, ptr, Reached(ptr, len))
    ensures NonEmpty(v) && Flat(v) == Bytes(pm.mem, pt.root, ptr, Reached(ptr, len))
  {
    hide Mapping, PageTable.Valid, PpnOf, Bytes, Phys, AllMapped, Reached, Ends, EndVa, StepTo, ToVa, Floor,
        PageOffset, Flat, NonEmpty;
    var start: nat, end := ptr, ptr + len;
    v := [];
    ghost var done := 0;
    StartLoop(pm.mem, pt.root, ptr, len);
    while start < end
      invariant NonEmpty(v) && Flat(v) == Bytes(pm.mem, pt.root, ptr, done)
      invariant start < end ==> ToVa(start) == ToVa(ptr + done) && done < Reached(ptr, len)
      invariant start >= end ==> done == Reached(ptr, len)
      decreases Reached(ptr, len) - done
    {
      var startVa := ToVa(start);
      var vpn := Floor(startVa);
      PageMapped(pm.mem, pt.root, ptr, Reached(ptr, len), ptr + done);
      var e := pt.Translate(pm, vpn);
      var ppn := PpnOf(e.value);
      var endVa := EndVa(start, end);
      ghost var n := PageStep(ptr, len, done, start);
      var slice := Slice(ppn, PageOffset(startVa), if PageOffset(endVa) == 0 then PAGE_SIZE else PageOffset(endVa));
      PageRun(pm.mem, pt.root, ptr + done, n);
      BytesConcat(pm.mem, pt.root, ptr, done, n);
      Pushed(v, slice);
      v := v + [slice];
      start := StepTo(start, end);
      done := done + n;
    }
  }

  lemma PageMapped(mem: map<nat, Frame>, root: nat, ptr: nat, len: nat, v: nat)
    requires AllMapped(mem, root, ptr, len) && ptr <= v < ptr + len
    ensures Mapping(mem, root, Floor(ToVa(v))).Some?
  {
  }

  lemma Pushed(v: seq<Slice>, s: Slice)
    requires NonEmpty(v) && s.lo < s.hi <= PAGE_SIZE
    ensures NonEmpty(v + [s]) && Flat(v + [s]) == Flat(v) + BytesOf(s)
  {
    assert (v + [s])[..|v|] == v;
  }

  lemma StartLoop(mem: map<nat, Frame>, root: nat, ptr: nat, len: nat)
    requires Ends(ptr, len)
    ensures NonEmpty([]) && Flat([]) == Bytes(mem, root, ptr, 0)
    ensures if len > 0 then 0 < Reached(ptr, len) else Reached(ptr, len) == 0
  {
    ReachedBound(ptr, len);
  }

  /** One iteration, in addresses of 39 bits. */
  lemma InPage(va: nat, endVa: nat, end: nat)
    requires endVa == if (Floor(va) + 1) * PAGE_SIZE <= end then (Floor(va) + 1) * PAGE_SIZE else end
    ensures end <= va ==> endVa == end
    ensures va < end ==> va < endVa <= end && PageOffset(va) + (endVa - va) ==
                                   if PageOffset(endVa) == 0 then PAGE_SIZE else PageOffset(endVa)
    ensures va == end ==> PageOffset(va) == PageOffset(endVa)
    ensures va < HALF ==> endVa <= HALF
  {
    var p := va / PAGE_SIZE;
    assert va == p * PAGE_SIZE + va % PAGE_SIZE;
    assert HALF == 0x400_0000 * PAGE_SIZE;
    if va < HALF {
      assert p + 1 <= 0x400_0000;
    }
    if va < end {
      var r := endVa - p * PAGE_SIZE;
      assert 0 < r <= PAGE_SIZE;
      if r < PAGE_SIZE {
        assert endVa / PAGE_SIZE == p;
      } else {
        assert endVa == (p + 1) * PAGE_SIZE;
      }
    }
  }

  lemma PageFits(va: nat)
    requires va < VA_COUNT
    ensures va - PageOffset(va) + PAGE_SIZE <= VA_COUNT
  {
    assert va == va / PAGE_SIZE * PAGE_SIZE + PageOffset(va) && VA_COUNT == VPN_COUNT * PAGE_SIZE;
  }

  lemma ReachedBound(ptr: nat, len: nat)
    requires Ends(ptr, len)
    ensures Reached(ptr, len) <= len && ToVa(ptr) + Reached(ptr, len) <= VA_COUNT && (len > 0 ==> 0 < Reached(ptr, len))
    ensures ToVa(ptr) < ToVa(ptr + len) ==> ToVa(ptr) + Reached(ptr, len) <= ToVa(ptr + len)
    ensures ptr / VA_COUNT != (ptr + len) / VA_COUNT ==> Reached(ptr, len) < len
  {
    Distance(ptr, ptr + len);
    PageFits(ToVa(ptr));
    EndFacts(ptr + len);
    InPage(ToVa(ptr), EndVa(ptr, ptr + len), ToVa(ptr + len));
  }

  /** Where the iteration that starts at the reached byte `va` ends. */
  lemma SpanStep(ptr: nat, len: nat, va: nat, endVa: nat)
    requires Ends(ptr, len) && len > 0 && ToVa(ptr) <= va < ToVa(ptr) + Reached(ptr, len)
    requires ToVa(ptr) < ToVa(ptr + len)
    requires endVa == if (Floor(va) + 1) * PAGE_SIZE <= ToVa(ptr + len) then (Floor(va) + 1) * PAGE_SIZE
                      else ToVa(ptr + len)
    ensures va < endVa <= ToVa(ptr) + Reached(ptr, len)
    ensures FromVa(endVa) < ptr + len <==> endVa < ToVa(ptr) + Reached(ptr, len)
  {
    var first, end := ToVa(ptr), ToVa(ptr + len);
    EndFacts(ptr + len);
    InPage(va, endVa, end);
    if first >= HALF {
      SamePageEnd(first, va);
    }
  }

  lemma SamePageEnd(first: nat, va: nat)
    requires first <= va
    ensures va < first - PageOffset(first) + PAGE_SIZE ==>
              (Floor(va) + 1) * PAGE_SIZE == first - PageOffset(first) + PAGE_SIZE
    ensures (Floor(va) + 1) * PAGE_SIZE >= first - PageOffset(first) + PAGE_SIZE
  {
    var f, p := first / PAGE_SIZE, va / PAGE_SIZE;
    assert first == f * PAGE_SIZE + first % PAGE_SIZE && va == p * PAGE_SIZE + va % PAGE_SIZE;
  }

  /** How far one iteration gets. */
  lemma PageStep(ptr: nat, len: nat, done: nat, start: nat) returns (n: nat)
    requires Ends(ptr, len) && done < Reached(ptr, len) && start < ptr + len && ToVa(start) == ToVa(ptr + done)
    ensures 0 < n && done + n <= Reached(ptr, len) && n == SliceLen(start, ptr + len)
    ensures PageOffset(ToVa(start)) + n <= PAGE_SIZE
    ensures if StepTo(start, ptr + len) < ptr + len
            then done + n < Reached(ptr, len) && ToVa(StepTo(start, ptr + len)) == ToVa(ptr + done + n)
            else done + n == Reached(ptr, len)
  {
    hide ToVa, Reached, SliceLen, Ends, EndVa, FromVa, PageOffset;
    var end := ptr + len;
    ReachedBound(ptr, len);
    VaPlus(ptr, done);
    VaBack(EndVa(start, end));
    if ToVa(ptr) < ToVa(end) {
      SpanSlice(start, end);
      n := SliceLen(start, end);
      SpanStep(ptr, len, ToVa(start), EndVa(start, end));
      if done + n < Reached(ptr, len) {
        VaPlus(ptr, done + n);
      }
    } else {
      OnlyStep(ptr, len, done, start);
      n := SliceLen(start, end);
    }
  }

  lemma SpanSlice(start: nat, end: nat)
    requires ToVa(start) < ToVa(end)
    ensures SliceLen(start, end) == EndVa(start, end) - ToVa(start) > 0
    ensures PageOffset(ToVa(start)) + SliceLen(start, end) <= PAGE_SIZE
    ensures EndVa(start, end) == if (Floor(ToVa(start)) + 1) * PAGE_SIZE <= ToVa(end)
                                 then (Floor(ToVa(start)) + 1) * PAGE_SIZE else ToVa(end)
  {
    InPage(ToVa(start), EndVa(start, end), ToVa(end));
  }

  /** A range that seems to end before it starts has one slice. */
  lemma OnlyStep(ptr: nat, len: nat, done: nat, start: nat)
    requires Ends(ptr, len) && done < Reached(ptr, len) && len > 0 && ToVa(ptr + len) <= ToVa(ptr)
    requires ToVa(start) == ToVa(ptr) + done && start < ptr + len
    ensures SliceLen(start, ptr + len) == Reached(ptr, len) - done
    ensures PageOffset(ToVa(start)) + SliceLen(start, ptr + len) <= PAGE_SIZE
    ensures StepTo(start, ptr + len) >= ptr + len
  {
    hide ToVa;
    var end := ptr + len;
    EndFacts(end);
    Distance(ptr, end);
    InPage(ToVa(ptr), EndVa(ptr, end), ToVa(end));
    InPage(ToVa(start), EndVa(start, end), ToVa(end));
    OffsetPlus(ToVa(ptr), done);
  }

  lemma OffsetPlus(va: nat, d: nat)
    requires PageOffset(va) + d < PAGE_SIZE
    ensures PageOffset(va + d) == PageOffset(va) + d
  {
    assert va + d == va / PAGE_SIZE * PAGE_SIZE + (PageOffset(va) + d);
  }

  /** `UserBuffer::len` */
  method Len(v: seq<Slice>) returns (total: nat)
    requires NonEmpty(v)
    ensures total == |Flat(v)|
  {
    total := 0;
    for i := 0 to |v|
      invariant total == |Flat(v[..i])|
    {
      assert v[..i + 1][..i] == v[..i];
      total := total + (v[i].hi - v[i].lo);
    }
    assert v[..|v|] == v;
  }

  lemma {:induction false} FlatSplit(v: seq<Slice>, i: nat)
    requires NonEmpty(v) && i <= |v|
    ensures Flat(v) == Flat(v[..i]) + Flat(v[i..])
    decreases |v|
  {
    if i < |v| {
      var init := v[..|v| - 1];
      FlatSplit(init, i);
      assert init[..i] == v[..i] && v[i..][..|v| - 1 - i] == init[i..];
    } else {
      assert v[..i] == v && v[i..] == [];
    }
  }

  /** `UserBufferIterator` */
  class UserBufferIterator {
    const buffers: seq<Slice>
    var currentBuffer: nat
    var currentIdx: nat

    ghost predicate Valid()
      reads this
    {
      && NonEmpty(buffers) && currentBuffer <= |buffers|
      && (currentBuffer < |buffers| ==> currentIdx < buffers[currentBuffer].hi - buffers[currentBuffer].lo)
      && (currentBuffer == |buffers| ==> currentIdx == 0)
    }

    /** The addresses still to come. */
    ghost function Remaining(): seq<nat>
      requires Valid()
      reads this
    {
      if currentBuffer == |buffers| then [] else
        FirstSlice(buffers[currentBuffer..]);
        Flat(buffers[currentBuffer..])[currentIdx..]
    }

    constructor (v: seq<Slice>)
      requires NonEmpty(v)
      ensures Valid() && Remaining() == Flat(v)
    {
      buffers, currentBuffer, currentIdx := v, 0, 0;
      new;
      if |v| > 0 {
        FirstSlice(v);
      }
      assert v[0..] == v;
    }

    /** `next` yields the addresses one by one and `None` exactly at the end. */
    method Next() returns (r: Option<nat>)
      requires Valid()
      modifies this
      ensures Valid()
      ensures r.None? <==> old(Remaining()) == []
      ensures r.None? ==> Remaining() == []
      ensures r.Some? ==> old(Remaining()) == [r.value] + Remaining()
    {
      hide Flat;
      ghost var rest := buffers[currentBuffer..];
      if currentBuffer >= |buffers| {
        FlatNone();
        return None;
      }
      var s := buffers[currentBuffer];
      FirstSlice(rest);
      assert rest[1..] == buffers[currentBuffer + 1..];
      r := Some(s.ppn * PAGE_SIZE + s.lo + currentIdx);
      assert Flat(rest)[currentIdx] == r.value;
      if currentIdx + 1 == s.hi - s.lo {
        currentIdx, currentBuffer := 0, currentBuffer + 1;
        if currentBuffer < |buffers| {
          FirstSlice(buffers[currentBuffer..]);
        } else {
          FlatNone();
        }
      } else {
        currentIdx := currentIdx + 1;
      }
    }
  }

  lemma FlatNone()
    ensures Flat([]) == []
  {
  }

  lemma {:induction false} FirstSlice(v: seq<Slice>)
    requires NonEmpty(v) && v != []
    ensures Flat(v) == BytesOf(v[0]) + Flat(v[1..]) && |Flat(v)| > 0
  {
    hide Flat;
    FlatSplit(v, 1);
    assert v[..1] == [v[0]];
    FlatOne(v[0]);
  }

  lemma FlatOne(s: Slice)
    requires s.lo < s.hi <= PAGE_SIZE
    ensures Flat([s]) == BytesOf(s)
  {
    assert [s][..0] == [];
  }

  /** Reading a user buffer byte by byte touches, in order and exactly once, the physical byte of each
      address of the reached part of the virtual range; `CompleteIff` says when that is the whole
      range. */
  method Iterate(pt: PageTable, pm: PhysicalMemory, ptr: nat, len: nat) returns (touched: seq<nat>)
    requires pt.Valid(pm) && Ends(ptr, len) && AllMapped(pm.mem, pt.root, ptr, Reached(ptr, len))
    ensures touched == Bytes(pm.mem, pt.root, ptr, Reached(ptr, len))
  {
    hide PageTable.Valid, AllMapped, Ends, Reached, Flat, Bytes, Phys, UserBufferIterator.Valid,
        UserBufferIterator.Remaining, NonEmpty;
    var v := TranslatedByteBuffer(pt, pm, ptr, len);
    var it := new UserBufferIterator(v);
    touched := [];
    ghost var all := Bytes(pm.mem, pt.root, ptr, Reached(ptr, len));
    while true
      invariant it.Valid() && touched + it.Remaining() == all
      decreases |it.Remaining()|
    {
      ghost var rest := it.Remaining();
      var r := it.Next();
      if r.None? {
        break;
      }
      assert touched + ([r.value] + it.Remaining()) == (touched + [r.value]) + it.Remaining();
      touched := touched + [r.value];
    }
  }
}
