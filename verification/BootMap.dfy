/** What the boot loader reports and which pages each initialisation loop visits. */
module BootMap {
  import opened Words
  import opened PageBitmap

  const MULTIBOOT_FLAG_MODS: bv32 := 0x8
  const MULTIBOOT_FLAG_MEMMAP: bv32 := 0x40
  const KERNEL_VIRTUAL_BASE: Word := 0xC000_0000

  /** One memory-map entry (Multiboot Specification, section 3.3); kind 1 is available RAM. */
  datatype MapEntry = MapEntry(size: Word, baseLow: Word, baseHigh: Word,
                               lengthLow: Word, lengthHigh: Word, kind: Word)

  datatype BootModule = BootModule(start: Word, end: Word)

  datatype BootInfo = BootInfo(flags: bv32, mmapLength: Word, entries: seq<MapEntry>, mods: seq<BootModule>)
  {
    predicate HasMap() { flags & MULTIBOOT_FLAG_MEMMAP != 0 }
    predicate HasMods() { flags & MULTIBOOT_FLAG_MODS != 0 }
  }

  /** The bytes the entries occupy: each is followed by the next at its `size` plus four. */
  ghost function MapBytes(entries: seq<MapEntry>): nat {
    if entries == [] then 0
    else MapBytes(entries[..|entries| - 1]) + entries[|entries| - 1].size + 4
  }

  lemma {:induction false} MapBytesMonotone(entries: seq<MapEntry>, n: nat)
    requires n < |entries|
    ensures MapBytes(entries[..n]) < MapBytes(entries)
    decreases |entries|
  {
    var init := entries[..|entries| - 1];
    if n < |init| {
      MapBytesMonotone(init, n);
      assert init[..n] == entries[..n];
    } else {
      assert init == entries[..n];
    }
  }

  predicate InRun(p: nat, first: nat, n: nat) {
    first <= p < first + n
  }

  /** `n` consecutive pages from page `first`. */
  ghost function PagesFrom(first: nat, n: nat): set<nat> {
    set p: nat | p < first + n && InRun(p, first, n)
  }

  // ---- the loop over one region: addr = start; addr < start + length; addr += 4096 ----

  /** The number of iterations of a 4096-stride from 0 while below `length`. */
  function Strides(length: nat): (n: nat)
    ensures length <= PAGE_SIZE * n < length + PAGE_SIZE
  {
    (length + PAGE_SIZE - 1) / PAGE_SIZE
  }

  /** The region loop reaches its bound before the 32-bit address wraps. */
  predicate RegionLoopEnds(start: Word, length: Word) {
    start + length >= WORD_LIMIT || start + PAGE_SIZE * Strides(length) < WORD_LIMIT
  }

  /** The pages whose bit the region loop clears. A region whose 32-bit end wraps clears none. */
  ghost function Visited(start: Word, length: Word): (s: set<nat>)
    ensures forall p | p in s :: p < PAGES
  {
    if start + length >= WORD_LIMIT then {} else PagesFrom(start / PAGE_SIZE, Strides(length))
  }

  // ---- the loops that reserve a range: addr = start; addr <= end; addr += 4096 ----

  predicate RangeLoopEnds(start: Word, end: Word) {
    end < start || start + PAGE_SIZE * ((end - start) / PAGE_SIZE + 1) < WORD_LIMIT
  }

  /** The pages whose bit a range loop sets. */
  ghost function Reserved(start: Word, end: Word): (s: set<nat>)
    ensures forall p | p in s :: p < PAGES
  {
    if end < start then {} else PagesFrom(start / PAGE_SIZE, (end - start) / PAGE_SIZE + 1)
  }

  /** Page `p` shares at least one address with [start, end]. */
  predicate Touches(p: nat, start: Word, end: Word) {
    start <= end && PAGE_SIZE * p <= end && start < PAGE_SIZE * (p + 1)
  }

  ghost function Touching(start: Word, end: Word): set<nat> {
    set p: nat | p < PAGES && Touches(p, start, end)
  }

  // ---- the closed form of the initial free set ----

  ghost function Available(entries: seq<MapEntry>): set<nat> {
    if entries == [] then {}
    else
      var e := entries[|entries| - 1];
      Available(entries[..|entries| - 1]) + if e.kind == 1 then Visited(e.baseLow, e.lengthLow) else {}
  }

  ghost function ModulePages(mods: seq<BootModule>): set<nat> {
    if mods == [] then {}
    else
      var m := mods[|mods| - 1];
      ModulePages(mods[..|mods| - 1]) + Reserved(m.start, m.end)
  }

  ghost function InitialFree(info: BootInfo, kernelStart: Word, kernelEnd: Word): set<nat> {
    (if info.HasMap() then Available(info.entries) else {})
    - Reserved(Wrap(kernelStart - KERNEL_VIRTUAL_BASE), Wrap(kernelEnd - KERNEL_VIRTUAL_BASE))
    - (if info.HasMods() then ModulePages(info.mods) else {})
    - {0}
  }

  /** Every loop of the initialisation ends, and the entries tile the map exactly. */
  ghost predicate Bootable(info: BootInfo, kernelStart: Word, kernelEnd: Word) {
    && RangeLoopEnds(Wrap(kernelStart - KERNEL_VIRTUAL_BASE), Wrap(kernelEnd - KERNEL_VIRTUAL_BASE))
    && (info.HasMap() ==>
          && MapBytes(info.entries) == info.mmapLength
          && forall e | e in info.entries && e.kind == 1 :: RegionLoopEnds(e.baseLow, e.lengthLow))
    && (info.HasMods() ==> forall m | m in info.mods :: RangeLoopEnds(m.start, m.end))
  }

  // ---- what the closed form means ----

  /** The address after `k` strides, in 32-bit arithmetic. */
  function AddressAfter(start: Word, k: nat): Word {
    Wrap(start + PAGE_SIZE * k)
  }

  /** The region loop of the code ends if and only if `RegionLoopEnds`: otherwise every
      address it ever visits, across every wrap-around, is below its bound. */
  lemma RegionLoopEndsExactly(start: Word, length: Word)
    ensures RegionLoopEnds(start, length) <==>
            exists k: nat :: AddressAfter(start, k) >= Wrap(start + length)
  {
    if RegionLoopEnds(start, length) {
      if start + length >= WORD_LIMIT {
        assert AddressAfter(start, 0) >= Wrap(start + length);
      } else {
        assert AddressAfter(start, Strides(length)) >= Wrap(start + length);
      }
    } else {
      forall k: nat
        ensures AddressAfter(start, k) < Wrap(start + length)
      {
        StuckBelow(start, length, k);
      }
    }
  }

  lemma StuckBelow(start: Word, length: Word, k: nat)
    requires !RegionLoopEnds(start, length)
    ensures AddressAfter(start, k) < start + length
  {
    var r := start % PAGE_SIZE;
    SameOffset(start, PAGE_SIZE * Strides(length) - PAGE_SIZE);
    SameOffset(start, PAGE_SIZE * k);
    var a := AddressAfter(start, k);
    assert a % PAGE_SIZE == r;
    assert a <= WORD_LIMIT - PAGE_SIZE + r;
  }

  /** The bound is the code's own: a region that ends in the last page of the address space,
      such as [0xFFFFF000, 0xFFFFFFFF), keeps the region loop running forever. */
  lemma RegionLoopCanRunForever(k: nat)
    ensures !RegionLoopEnds(0xFFFF_F000, 0xFFF)
    ensures AddressAfter(0xFFFF_F000, k) < Wrap(0xFFFF_F000 + 0xFFF)
  {
    StuckBelow(0xFFFF_F000, 0xFFF, k);
  }

  /** The range loops of the code end if and only if `RangeLoopEnds`. */
  lemma RangeLoopEndsExactly(start: Word, end: Word)
    ensures RangeLoopEnds(start, end) <==> exists k: nat :: AddressAfter(start, k) > end
  {
    if RangeLoopEnds(start, end) {
      if end < start {
        assert AddressAfter(start, 0) > end;
      } else {
        assert AddressAfter(start, (end - start) / PAGE_SIZE + 1) > end;
      }
    } else {
      forall k: nat
        ensures AddressAfter(start, k) <= end
      {
        var last := start + PAGE_SIZE * ((end - start) / PAGE_SIZE);
        SameOffset(start, PAGE_SIZE * ((end - start) / PAGE_SIZE));
        SameOffset(start, PAGE_SIZE * k);
        assert AddressAfter(start, k) % PAGE_SIZE == last % PAGE_SIZE;
        assert last + PAGE_SIZE >= WORD_LIMIT;
      }
    }
  }

  /** A range that ends in the last page of the address space keeps its loop running forever,
      such as a module from 0xFFFFF000 to 0xFFFFFFFF. */
  lemma RangeLoopCanRunForever(end: Word, k: nat)
    requires end >= 0xFFFF_F000
    ensures !RangeLoopEnds(0xFFFF_F000, end)
    ensures AddressAfter(0xFFFF_F000, k) <= end
  {
    SameOffset(0xFFFF_F000, PAGE_SIZE * k);
    assert AddressAfter(0xFFFF_F000, k) % PAGE_SIZE == 0;
  }

  lemma SameOffset(start: Word, d: int)
    requires d % PAGE_SIZE == 0
    ensures Wrap(start + d) % PAGE_SIZE == start % PAGE_SIZE
  {
    var x := start + d;
    assert WORD_LIMIT == PAGE_SIZE * 0x10_0000;
    assert Wrap(x) == x - WORD_LIMIT * (x / WORD_LIMIT);
  }

  /** A page is available exactly when some available entry's strides visit it. */
  lemma {:induction false} AvailableMember(entries: seq<MapEntry>, p: nat)
    ensures p in Available(entries) <==>
            exists e :: e in entries && e.kind == 1 && p in Visited(e.baseLow, e.lengthLow)
  {
    if entries != [] {
      var init, last := entries[..|entries| - 1], entries[|entries| - 1];
      AvailableMember(init, p);
      assert entries == init + [last];
    }
  }

  lemma {:induction false} ModulePagesMember(mods: seq<BootModule>, p: nat)
    ensures p in ModulePages(mods) <==> exists m :: m in mods && p in Reserved(m.start, m.end)
  {
    if mods != [] {
      var init, last := mods[..|mods| - 1], mods[|mods| - 1];
      ModulePagesMember(init, p);
      assert mods == init + [last];
    }
  }

  /** The order in which the boot loader lists regions and modules does not matter. */
  lemma OrderIndependent(a: BootInfo, b: BootInfo, kernelStart: Word, kernelEnd: Word)
    requires a.flags == b.flags
    requires multiset(a.entries) == multiset(b.entries) && multiset(a.mods) == multiset(b.mods)
    ensures InitialFree(a, kernelStart, kernelEnd) == InitialFree(b, kernelStart, kernelEnd)
  {
    assert forall e :: e in a.entries <==> e in multiset(a.entries);
    assert forall e :: e in b.entries <==> e in multiset(b.entries);
    assert forall m :: m in a.mods <==> m in multiset(a.mods);
    assert forall m :: m in b.mods <==> m in multiset(b.mods);
    forall p: nat
      ensures p in Available(a.entries) <==> p in Available(b.entries)
      ensures p in ModulePages(a.mods) <==> p in ModulePages(b.mods)
    {
      AvailableMember(a.entries, p);
      AvailableMember(b.entries, p);
      ModulePagesMember(a.mods, p);
      ModulePagesMember(b.mods, p);
    }
    assert Available(a.entries) == Available(b.entries);
    assert ModulePages(a.mods) == ModulePages(b.mods);
  }

  /** The range is empty, or `start` is not further into its page than `end` is into its own.
      Page-aligned starts, which the linker script and the boot header ask for, qualify. */
  predicate ReservesWhole(start: Word, end: Word) {
    end < start || start % PAGE_SIZE <= end % PAGE_SIZE
  }

  /** A range loop reserves every page that touches [start, end] if and only if the range
      satisfies `ReservesWhole`. */
  lemma ReservesAllTouchedExactly(start: Word, end: Word)
    ensures Reserved(start, end) <= Touching(start, end)
    ensures Reserved(start, end) == Touching(start, end) <==> ReservesWhole(start, end)
  {
    if start <= end {
      forall p | p in Reserved(start, end)
        ensures p in Touching(start, end)
      {
        assert p - start / PAGE_SIZE <= (end - start) / PAGE_SIZE;
      }
      if start % PAGE_SIZE <= end % PAGE_SIZE {
        assert (end - start) / PAGE_SIZE == end / PAGE_SIZE - start / PAGE_SIZE;
        forall p | p in Touching(start, end)
          ensures p in Reserved(start, end)
        {
          assert start / PAGE_SIZE <= p <= end / PAGE_SIZE;
        }
      } else {
        var last := end / PAGE_SIZE;
        assert last in Touching(start, end);
        assert (end - start) / PAGE_SIZE == last - start / PAGE_SIZE - 1;
        assert last !in Reserved(start, end);
      }
    }
  }

  /** The page lies wholly inside the region the entry describes with its 64-bit fields. */
  predicate InsideRegion(p: nat, e: MapEntry) {
    var base := e.baseHigh * WORD_LIMIT + e.baseLow;
    var length := e.lengthHigh * WORD_LIMIT + e.lengthLow;
    base <= PAGE_SIZE * p && PAGE_SIZE * (p + 1) <= base + length
  }

  /** The loop frees nothing for the entry, or the region starts below 4 GiB on a page boundary
      and either ends on one or extends beyond its low length word. */
  predicate FreesOnlyInside(e: MapEntry) {
    || e.lengthLow == 0
    || e.baseLow + e.lengthLow >= WORD_LIMIT
    || (e.baseHigh == 0 && e.baseLow % PAGE_SIZE == 0
        && (e.lengthHigh > 0 || e.lengthLow % PAGE_SIZE == 0))
  }

  /** The code's own comment promises page alignment, but the loop does not round. Every page
      an entry frees lies wholly inside that entry's region if and only if the entry satisfies
      `FreesOnlyInside`. */
  lemma FreesOnlyRamExactly(e: MapEntry)
    ensures (forall p | p in Visited(e.baseLow, e.lengthLow) :: InsideRegion(p, e)) <==> FreesOnlyInside(e)
  {
    if e.lengthLow != 0 && e.baseLow + e.lengthLow < WORD_LIMIT {
      var first := e.baseLow / PAGE_SIZE;
      var last := first + Strides(e.lengthLow) - 1;
      assert first in Visited(e.baseLow, e.lengthLow);
      assert last in Visited(e.baseLow, e.lengthLow);
      if e.baseHigh == 0 && e.baseLow % PAGE_SIZE == 0 {
        if e.lengthHigh > 0 || e.lengthLow % PAGE_SIZE == 0 {
          forall p | p in Visited(e.baseLow, e.lengthLow)
            ensures InsideRegion(p, e)
          {
            assert p <= last;
          }
        } else {
          assert !InsideRegion(last, e);
        }
      } else {
        assert !InsideRegion(first, e);
      }
    }
  }

  /** Every page inside the entry's region is freed when the region starts so high that it holds
      no whole page below 4 GiB, or when its low end does not wrap and the strides over its low
      length word reach as far as the region does. */
  predicate FreesAllInside(e: MapEntry) {
    || e.baseHigh > 0
    || e.baseLow > WORD_LIMIT - PAGE_SIZE
    || (e.baseLow + e.lengthLow < WORD_LIMIT
        && (e.lengthHigh == 0 || e.baseLow / PAGE_SIZE + Strides(e.lengthLow) >= PAGES))
  }

  /** The converse promise, that no RAM is lost: every page below 4 GiB that lies inside an
      entry's region is freed for it if and only if the entry satisfies `FreesAllInside`. */
  lemma FreesAllRamExactly(e: MapEntry)
    ensures (forall p: nat | p < PAGES && InsideRegion(p, e) :: p in Visited(e.baseLow, e.lengthLow))
            <==> FreesAllInside(e)
  {
    var pages := Visited(e.baseLow, e.lengthLow);
    if FreesAllInside(e) {
      forall p: nat | p < PAGES && InsideRegion(p, e)
        ensures p in pages
      {
        assert e.baseHigh == 0 && e.baseLow <= PAGE_SIZE * p <= WORD_LIMIT - PAGE_SIZE;
      }
    } else if e.baseLow + e.lengthLow >= WORD_LIMIT {
      assert InsideRegion(PAGES - 1, e) && PAGES - 1 !in pages;
    } else {
      var lost := if e.lengthLow == 0 then PAGES - 1 else e.baseLow / PAGE_SIZE + Strides(e.lengthLow);
      assert InsideRegion(lost, e) && lost !in pages;
    }
  }

  /** The code loses RAM that a correct allocator would serve: the gigabyte below 4 GiB, whose
      32-bit end wraps to 0, frees no page at all. */
  lemma TopOfMemoryIsLost()
    ensures var e := MapEntry(20, 0xC000_0000, 0, 0x4000_0000, 0, 1);
            && InsideRegion(0xD_0000, e)
            && !FreesAllInside(e)
            && Available([e]) == {}
  {
    var e := MapEntry(20, 0xC000_0000, 0, 0x4000_0000, 0, 1);
    assert [e][..0] == [];
    assert Visited(e.baseLow, e.lengthLow) == {};
  }
}
