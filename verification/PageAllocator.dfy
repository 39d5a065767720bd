/** The physical page allocator: one bit per 4 KiB frame of the 32-bit physical address space. */
module PageAllocator {
  import opened Words
  import opened PageBitmap
  import opened BootMap

  class Allocator {
    const bitmap: array<bv32>

    ghost predicate Valid() {
      bitmap.Length == BITMAP_WORDS
    }

    constructor ()
      ensures Valid() && fresh(bitmap)
    {
      bitmap := new bv32[BITMAP_WORDS];
    }

    method BitmapSet(bit: nat)
      requires Valid() && bit < PAGES
      modifies bitmap
      ensures bitmap[..] == Marked(old(bitmap[..]), bit)
    {
      bitmap[bit / 32] := bitmap[bit / 32] | ((1 as bv32) << (bit % 32));
    }

    method BitmapClear(bit: nat)
      requires Valid() && bit < PAGES
      modifies bitmap
      ensures bitmap[..] == Cleared(old(bitmap[..]), bit)
    {
      bitmap[bit / 32] := bitmap[bit / 32] & !((1 as bv32) << (bit % 32));
    }

    method BitmapTest(bit: nat) returns (used: bool)
      requires Valid() && bit < PAGES
      ensures used <==> Used(bitmap[..], bit)
    {
      used := bitmap[bit / 32] & ((1 as bv32) << (bit % 32)) != 0;
    }

    method FillAll()
      requires Valid()
      modifies bitmap
      ensures FreePages(bitmap[..]) == {}
    {
      var i := 0;
      while i < BITMAP_WORDS
        invariant 0 <= i <= BITMAP_WORDS
        invariant forall j | 0 <= j < i :: bitmap[j] == 0xFFFF_FFFF
      {
        bitmap[i] := 0xFFFF_FFFF;
        i := i + 1;
      }
      NothingFree(bitmap[..]);
    }

    method ClearRegion(start: Word, length: Word)
      requires Valid() && RegionLoopEnds(start, length)
      modifies bitmap
      ensures FreePages(bitmap[..]) == old(FreePages(bitmap[..])) + Visited(start, length)
    {
      hide Mask, Pick, Or, AndNot, Bit, Used;
      var end := Wrap(start + length);
      var addr := start;
      ghost var n := 0;
      ghost var was := FreePages(bitmap[..]);
      assert was + PagesFrom(start / PAGE_SIZE, 0) == was;
      while addr < end
        invariant start + length >= WORD_LIMIT ==> n == 0
        invariant start + length < WORD_LIMIT ==> n <= Strides(length)
        invariant addr == start + PAGE_SIZE * n
        invariant FreePages(bitmap[..]) == was + PagesFrom(start / PAGE_SIZE, n)
        decreases end - addr
      {
        FreeAfterClear(bitmap[..], addr / PAGE_SIZE);
        BitmapClear(addr / PAGE_SIZE);
        NextPage(start, n);
        addr := Wrap(addr + PAGE_SIZE);
        n := n + 1;
      }
    }

    method ReserveRange(start: Word, end: Word)
      requires Valid() && RangeLoopEnds(start, end)
      modifies bitmap
      ensures FreePages(bitmap[..]) == old(FreePages(bitmap[..])) - Reserved(start, end)
    {
      hide Mask, Pick, Or, AndNot, Bit, Used;
      var addr := start;
      ghost var n := 0;
      ghost var was := FreePages(bitmap[..]);
      assert was - PagesFrom(start / PAGE_SIZE, 0) == was;
      while addr <= end
        invariant end < start ==> n == 0
        invariant start <= end ==> n <= (end - start) / PAGE_SIZE + 1
        invariant addr == start + PAGE_SIZE * n
        invariant FreePages(bitmap[..]) == was - PagesFrom(start / PAGE_SIZE, n)
        decreases end - addr
      {
        FreeAfterMark(bitmap[..], addr / PAGE_SIZE);
        BitmapSet(addr / PAGE_SIZE);
        NextPage(start, n);
        addr := Wrap(addr + PAGE_SIZE);
        n := n + 1;
      }
    }

    /** Walks the memory map by byte offset, each entry leading to the next one. */
    method ClearAvailable(entries: seq<MapEntry>, mmapLength: Word)
      requires Valid() && MapBytes(entries) == mmapLength
      requires forall e | e in entries && e.kind == 1 :: RegionLoopEnds(e.baseLow, e.lengthLow)
      modifies bitmap
      ensures FreePages(bitmap[..]) == old(FreePages(bitmap[..])) + Available(entries)
    {
      hide Mask, Pick, Or, AndNot, Bit, Used;
      var offset := 0;
      var i := 0;
      ghost var was := FreePages(bitmap[..]);
      while offset < mmapLength
        invariant i <= |entries| && offset == MapBytes(entries[..i])
        invariant offset <= mmapLength && (offset == mmapLength <==> i == |entries|)
        invariant FreePages(bitmap[..]) == was + Available(entries[..i])
        decreases |entries| - i
      {
        assert i < |entries|;
        var e := entries[i];
        if e.kind == 1 {
          ClearRegion(e.baseLow, e.lengthLow);
        }
        assert entries[..i + 1][..i] == entries[..i];
        offset := offset + e.size + 4;
        i := i + 1;
        if i < |entries| {
          MapBytesMonotone(entries, i);
        } else {
          assert entries[..i] == entries;
        }
      }
      assert entries[..i] == entries;
    }

    method ReserveModules(mods: seq<BootModule>)
      requires Valid() && forall m | m in mods :: RangeLoopEnds(m.start, m.end)
      modifies bitmap
      ensures FreePages(bitmap[..]) == old(FreePages(bitmap[..])) - ModulePages(mods)
    {
      hide Mask, Pick, Or, AndNot, Bit, Used;
      var i := 0;
      ghost var was := FreePages(bitmap[..]);
      while i < |mods|
        invariant i <= |mods|
        invariant FreePages(bitmap[..]) == was - ModulePages(mods[..i])
      {
        ReserveRange(mods[i].start, mods[i].end);
        assert mods[..i + 1][..i] == mods[..i];
        i := i + 1;
      }
      assert mods[..i] == mods;
    }

    /** Whatever the bitmap held before, the free set afterwards is the closed form. */
    method Initialize(info: BootInfo, kernelStart: Word, kernelEnd: Word)
      requires Valid() && Bootable(info, kernelStart, kernelEnd)
      modifies bitmap
      ensures FreePages(bitmap[..]) == InitialFree(info, kernelStart, kernelEnd)
    {
      hide Mask, Pick, Or, AndNot, Bit, Used;
      FillAll();
      if info.flags & MULTIBOOT_FLAG_MEMMAP != 0 {
        ClearAvailable(info.entries, info.mmapLength);
      }
      var kernelPhysStart := Wrap(kernelStart - KERNEL_VIRTUAL_BASE);
      var kernelPhysEnd := Wrap(kernelEnd - KERNEL_VIRTUAL_BASE);
      ReserveRange(kernelPhysStart, kernelPhysEnd);
      if info.flags & MULTIBOOT_FLAG_MODS != 0 {
        if |info.mods| > 0 {
          ReserveModules(info.mods);
        }
      }
      FreeAfterMark(bitmap[..], 0);
      BitmapSet(0);
    }

    /** First fit with whole-word skipping returns what the bit-by-bit scan would. */
    method AllocPage() returns (addr: Word)
      requires Valid()
      modifies bitmap
      ensures addr == AllocAddress(old(bitmap[..]))
      ensures bitmap[..] == AllocBitmap(old(bitmap[..]))
    {
      hide Mask, Pick, Or, AndNot, Bit, Used;
      ghost var was := bitmap[..];
      var i := 0;
      while i < BITMAP_WORDS
        invariant 0 <= i <= BITMAP_WORDS
        invariant bitmap[..] == was
        invariant forall p: nat | p < 32 * i :: Used(was, p)
      {
        if bitmap[i] != 0xFFFF_FFFF {
          var j := 0;
          while j < 32
            invariant 0 <= j <= 32
            invariant bitmap[..] == was
            invariant forall p: nat | p < 32 * i + j :: Used(was, p)
          {
            var bit := i * 32 + j;
            var used := BitmapTest(bit);
            if !used {
              ScanFinds(was, bit);
              BitmapSet(bit);
              return Wrap(bit * PAGE_SIZE);
            }
            j := j + 1;
          }
        } else {
          FullWordUsed(was, i);
        }
        i := i + 1;
      }
      return 0;
    }

    method FreePage(addr: Word)
      requires Valid()
      modifies bitmap
      ensures bitmap[..] == Cleared(old(bitmap[..]), addr / PAGE_SIZE)
    {
      BitmapClear(addr / PAGE_SIZE);
    }
  }

  lemma NextPage(start: Word, n: nat)
    ensures (start + PAGE_SIZE * n) / PAGE_SIZE == start / PAGE_SIZE + n
    ensures PagesFrom(start / PAGE_SIZE, n + 1)
            == PagesFrom(start / PAGE_SIZE, n) + {start / PAGE_SIZE + n}
  {}

  /** The address the next allocation returns: that of the first free page, or 0. */
  ghost function AllocAddress(s: seq<bv32>): Word
    requires IsBitmap(s)
  {
    if Scan(s, 0) == PAGES then 0 else PAGE_SIZE * Scan(s, 0)
  }

  /** The bitmap after the next allocation. */
  ghost function AllocBitmap(s: seq<bv32>): (t: seq<bv32>)
    requires IsBitmap(s)
    ensures IsBitmap(t)
  {
    if Scan(s, 0) == PAGES then s else Marked(s, Scan(s, 0))
  }

  /** The bitmap after releasing an address. */
  ghost function FreeBitmap(s: seq<bv32>, addr: Word): (t: seq<bv32>)
    requires IsBitmap(s)
    ensures IsBitmap(t)
  {
    Cleared(s, addr / PAGE_SIZE)
  }

  /** A word the allocator skips holds no free page. */
  lemma FullWordUsed(s: seq<bv32>, i: nat)
    requires IsBitmap(s) && i < BITMAP_WORDS && s[i] == 0xFFFF_FFFF
    ensures forall p: nat | 32 * i <= p < 32 * (i + 1) :: Used(s, p)
  {
    hide Mask, Pick, Or, AndNot, Bit;
    FullWord(s[i]);
    forall p: nat | 32 * i <= p < 32 * (i + 1)
      ensures Used(s, p)
    {
      assert p / 32 == i;
    }
  }

  /** A word the allocator does not skip holds one, so the inner scan never runs past it. */
  lemma OtherWordHasFree(s: seq<bv32>, i: nat)
    requires IsBitmap(s) && i < BITMAP_WORDS && s[i] != 0xFFFF_FFFF
    ensures exists p: nat :: 32 * i <= p < 32 * (i + 1) && !Used(s, p)
  {
    hide Mask, Pick, Or, AndNot, Bit;
    FullWord(s[i]);
    var b: nat :| b < 32 && Bit(s[i], b) == 0;
    assert (32 * i + b) / 32 == i && (32 * i + b) % 32 == b;
    assert !Used(s, 32 * i + b);
  }

  lemma ScanFinds(s: seq<bv32>, p: nat)
    requires IsBitmap(s) && p < PAGES && !Used(s, p)
    requires forall q: nat | q < p :: Used(s, q)
    ensures Scan(s, 0) == p
  {
    hide Mask, Pick, Or, AndNot, Bit;
  }

  /** An allocation takes the least free page and no other; it returns 0 if and only if no
      page is free or page 0 is, so with page 0 reserved 0 means out of memory. */
  lemma AllocTakesLeast(s: seq<bv32>)
    requires IsBitmap(s)
    ensures AllocAddress(s) % PAGE_SIZE == 0
    ensures AllocAddress(s) == 0 <==> FreePages(s) == {} || 0 in FreePages(s)
    ensures FreePages(s) == {} ==> AllocBitmap(s) == s
    ensures FreePages(s) != {} ==>
              var p := AllocAddress(s) / PAGE_SIZE;
              && p in FreePages(s)
              && (forall q | q in FreePages(s) :: p <= q)
              && FreePages(AllocBitmap(s)) == FreePages(s) - {p}
              && !Used(s, p) && Used(AllocBitmap(s), p)
              && forall q: nat | q < PAGES && q != p :: Used(AllocBitmap(s), q) == Used(s, q)
  {
    hide Mask, Pick, Or, AndNot, Bit;
    ScanIsLeast(s);
    if FreePages(s) != {} {
      var p := Scan(s, 0);
      FreeAfterMark(s, p);
      forall q: nat | q < PAGES
        ensures Used(AllocBitmap(s), q) == (q == p || Used(s, q))
      {
        UsedAfterMark(s, p, q);
      }
    }
  }

  /** Releasing what an allocation returned restores every word, and the next allocation
      returns the same address again. */
  lemma AllocThenFree(s: seq<bv32>)
    requires IsBitmap(s) && FreePages(s) != {}
    ensures FreeBitmap(AllocBitmap(s), AllocAddress(s)) == s
    ensures AllocAddress(FreeBitmap(AllocBitmap(s), AllocAddress(s))) == AllocAddress(s)
  {
    hide Mask, Pick, Or, AndNot, Bit;
    ScanIsLeast(s);
    MarkAndClearUndo(s, Scan(s, 0));
  }

  /** Conversely, releasing a used page and allocating restores every word if and only if
      no lower page is free. */
  lemma FreeThenAlloc(s: seq<bv32>, addr: Word)
    requires IsBitmap(s) && Used(s, addr / PAGE_SIZE)
    ensures AllocBitmap(FreeBitmap(s, addr)) == s <==>
            forall q | q in FreePages(s) :: addr / PAGE_SIZE < q
  {
    hide Mask, Pick, Or, AndNot, Bit;
    var p := addr / PAGE_SIZE;
    var t := FreeBitmap(s, addr);
    FreeAfterClear(s, p);
    AllocTakesLeast(t);
    MarkAndClearUndo(s, p);
    assert FreePages(t) == FreePages(s) + {p};
    assert p in FreePages(t);
    var r := AllocAddress(t) / PAGE_SIZE;
    assert r == Scan(t, 0);
    if r != p {
      assert r in FreePages(s) && r < p;
      assert Used(AllocBitmap(t), r) && !Used(s, r);
    } else {
      assert AllocBitmap(t) == s;
    }
  }
}
