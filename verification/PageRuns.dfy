/** Whole runs of the allocator under clients that free only pages they hold. */
module PageRuns {
  import opened Words
  import opened PageBitmap
  import opened BootMap
  import opened BootSafety
  import opened PageAllocator

  /** Release(i) frees the i-th live address; it is skipped when there is none. */
  datatype Request = Alloc | Release(i: nat)

  /** The bitmap and the addresses handed out and not yet released. */
  datatype Pool = Pool(bits: seq<bv32>, live: seq<Word>)

  ghost function Serve(pool: Pool, request: Request): (after: Pool)
    requires IsBitmap(pool.bits)
    ensures IsBitmap(after.bits)
  {
    match request
    case Alloc =>
      var addr := AllocAddress(pool.bits);
      Pool(AllocBitmap(pool.bits), if addr == 0 then pool.live else pool.live + [addr])
    case Release(i) =>
      if i < |pool.live| then
        Pool(FreeBitmap(pool.bits, pool.live[i]), pool.live[..i] + pool.live[i + 1..])
      else pool
  }

  ghost function ServeAll(pool: Pool, requests: seq<Request>): (after: Pool)
    requires IsBitmap(pool.bits)
    ensures IsBitmap(after.bits)
    decreases |requests|
  {
    if requests == [] then pool else ServeAll(Serve(pool, requests[0]), requests[1..])
  }

  ghost function LivePages(live: seq<Word>): set<nat> {
    set i: nat | i < |live| :: live[i] / PAGE_SIZE
  }

  /** Live addresses are page-aligned, pairwise different and never 0; together with the free
      pages they are exactly `initial`, and no page is both. */
  ghost predicate Owned(pool: Pool, initial: set<nat>) {
    && IsBitmap(pool.bits)
    && 0 !in initial
    && (forall i: nat | i < |pool.live| :: pool.live[i] % PAGE_SIZE == 0 && pool.live[i] != 0)
    && (forall i: nat, j: nat | i < j < |pool.live| :: pool.live[i] != pool.live[j])
    && FreePages(pool.bits) !! LivePages(pool.live)
    && FreePages(pool.bits) + LivePages(pool.live) == initial
  }

  lemma LiveAfterAlloc(live: seq<Word>, addr: Word)
    ensures LivePages(live + [addr]) == LivePages(live) + {addr / PAGE_SIZE}
  {
    var more := live + [addr];
    assert more[|live|] == addr;
    forall p | p in LivePages(live) + {addr / PAGE_SIZE}
      ensures p in LivePages(more)
    {
      if p in LivePages(live) {
        var i: nat :| i < |live| && live[i] / PAGE_SIZE == p;
        assert more[i] == live[i];
      }
    }
  }

  lemma LiveAfterRelease(live: seq<Word>, i: nat)
    requires i < |live|
    requires forall k: nat | k < |live| :: live[k] % PAGE_SIZE == 0
    requires forall k: nat, l: nat | k < l < |live| :: live[k] != live[l]
    ensures LivePages(live[..i] + live[i + 1..]) == LivePages(live) - {live[i] / PAGE_SIZE}
  {
    var rest := live[..i] + live[i + 1..];
    forall p | p in LivePages(live) - {live[i] / PAGE_SIZE}
      ensures p in LivePages(rest)
    {
      var k: nat :| k < |live| && live[k] / PAGE_SIZE == p;
      assert k != i;
      var l := if k < i then k else k - 1;
      assert rest[l] == live[k];
    }
    forall p | p in LivePages(rest)
      ensures p in LivePages(live) - {live[i] / PAGE_SIZE}
    {
      var l: nat :| l < |rest| && rest[l] / PAGE_SIZE == p;
      var k := if l < i then l else l + 1;
      assert rest[l] == live[k];
      assert live[k] != live[i];
    }
  }

  lemma ServeKeepsOwned(pool: Pool, request: Request, initial: set<nat>)
    requires Owned(pool, initial)
    ensures Owned(Serve(pool, request), initial)
  {
    hide Mask, Pick, Or, AndNot, Bit, Used, Scan;
    match request
    case Alloc =>
      var addr := AllocAddress(pool.bits);
      AllocTakesLeast(pool.bits);
      LiveAfterAlloc(pool.live, addr);
      assert forall i: nat | i < |pool.live| :: pool.live[i] / PAGE_SIZE in LivePages(pool.live);
    case Release(i) =>
      if i < |pool.live| {
        var addr := pool.live[i];
        FreeAfterClear(pool.bits, addr / PAGE_SIZE);
        LiveAfterRelease(pool.live, i);
        assert addr / PAGE_SIZE in LivePages(pool.live);
      }
  }

  /** Every run conserves pages: each initially free page is free or held by one client. */
  lemma {:induction false} RunsConservePages(pool: Pool, requests: seq<Request>, initial: set<nat>)
    requires Owned(pool, initial)
    ensures Owned(ServeAll(pool, requests), initial)
    decreases |requests|
  {
    hide Mask, Pick, Or, AndNot, Bit, Used, Scan;
    if requests != [] {
      ServeKeepsOwned(pool, requests[0], initial);
      RunsConservePages(Serve(pool, requests[0]), requests[1..], initial);
    }
  }

  /** The addresses that are live after a run that starts with nobody holding any. */
  ghost function LiveAfter(bits: seq<bv32>, requests: seq<Request>): seq<Word>
    requires IsBitmap(bits)
  {
    ServeAll(Pool(bits, []), requests).live
  }

  /** The addresses lie at the starts of different pages, all of them from `initial`. */
  ghost predicate HeldFrom(live: seq<Word>, initial: set<nat>) {
    && (forall i: nat, j: nat | i < j < |live| :: live[i] / PAGE_SIZE != live[j] / PAGE_SIZE)
    && forall i: nat | i < |live| :: live[i] % PAGE_SIZE == 0 && live[i] / PAGE_SIZE in initial
  }

  /** After initialisation, in every run, the live pages are initially free and no two holders
      share one. */
  lemma LiveIsInitiallyFree(bits: seq<bv32>, info: BootInfo, kernelStart: Word, kernelEnd: Word,
                            requests: seq<Request>)
    requires IsBitmap(bits) && FreePages(bits) == InitialFree(info, kernelStart, kernelEnd)
    ensures HeldFrom(LiveAfter(bits, requests), InitialFree(info, kernelStart, kernelEnd))
  {
    hide Mask, Pick, Or, AndNot, Bit, Used, Scan, InitialFree;
    var initial := InitialFree(info, kernelStart, kernelEnd);
    ZeroNotInitial(info, kernelStart, kernelEnd);
    assert LivePages([]) == {};
    RunsConservePages(Pool(bits, []), requests, initial);
    var live := LiveAfter(bits, requests);
    forall i: nat | i < |live|
      ensures live[i] / PAGE_SIZE in initial
    {
      assert live[i] / PAGE_SIZE in LivePages(live);
    }
  }

  lemma ZeroNotInitial(info: BootInfo, kernelStart: Word, kernelEnd: Word)
    ensures 0 !in InitialFree(info, kernelStart, kernelEnd)
  {}

  /** On every boot, no run ever hands out page 0 or a page that the strides over the kernel or
      over a module visited. */
  lemma RunsNeverHandOutReserved(bits: seq<bv32>, info: BootInfo, kernelStart: Word, kernelEnd: Word,
                                 requests: seq<Request>)
    requires IsBitmap(bits) && FreePages(bits) == InitialFree(info, kernelStart, kernelEnd)
    ensures var live := LiveAfter(bits, requests);
            && (forall i: nat, j: nat | i < j < |live| :: live[i] / PAGE_SIZE != live[j] / PAGE_SIZE)
            && forall i: nat | i < |live| ::
                 && live[i] / PAGE_SIZE != 0
                 && live[i] / PAGE_SIZE in InitialFree(info, kernelStart, kernelEnd)
                 && live[i] / PAGE_SIZE !in
                      Reserved(Wrap(kernelStart - KERNEL_VIRTUAL_BASE), Wrap(kernelEnd - KERNEL_VIRTUAL_BASE))
                 && (info.HasMods() ==>
                       forall m | m in info.mods :: live[i] / PAGE_SIZE !in Reserved(m.start, m.end))
  {
    hide LiveAfter;
    LiveIsInitiallyFree(bits, info, kernelStart, kernelEnd, requests);
    var live := LiveAfter(bits, requests);
    forall i: nat | i < |live|
      ensures info.HasMods() ==> forall m | m in info.mods :: live[i] / PAGE_SIZE !in Reserved(m.start, m.end)
    {
      ModulePagesMember(info.mods, live[i] / PAGE_SIZE);
    }
  }

  /** The page was freed for an available entry, and it is RAM inside that entry's region unless
      that very entry fails `FreesOnlyInside`. */
  ghost predicate FromRegion(p: nat, entries: seq<MapEntry>) {
    exists e :: e in entries && e.kind == 1 && p in Visited(e.baseLow, e.lengthLow)
                && (FreesOnlyInside(e) ==> InsideRegion(p, e) && PageIsRam(p, entries))
  }

  /** On every boot, each page a run hands out comes from a region of the memory map. */
  lemma RunsStayInRegions(bits: seq<bv32>, info: BootInfo, kernelStart: Word, kernelEnd: Word,
                          requests: seq<Request>)
    requires IsBitmap(bits) && FreePages(bits) == InitialFree(info, kernelStart, kernelEnd)
    ensures var live := LiveAfter(bits, requests);
            forall i: nat | i < |live| :: FromRegion(live[i] / PAGE_SIZE, info.entries)
  {
    hide LiveAfter, Visited, FreesOnlyInside, InsideRegion, PageIsRam;
    LiveIsInitiallyFree(bits, info, kernelStart, kernelEnd, requests);
    var live := LiveAfter(bits, requests);
    forall i: nat | i < |live|
      ensures FromRegion(live[i] / PAGE_SIZE, info.entries)
    {
      var e := FreedByEntry(info.entries, live[i] / PAGE_SIZE);
    }
  }

  /** Whatever the memory map, no run hands out a page that touches page 0, the kernel or a
      module, as long as their ranges are reserved whole. */
  lemma RunsStayClear(bits: seq<bv32>, info: BootInfo, kernelStart: Word, kernelEnd: Word,
                      requests: seq<Request>)
    requires IsBitmap(bits) && FreePages(bits) == InitialFree(info, kernelStart, kernelEnd)
    requires RangesReservedWhole(info, kernelStart, kernelEnd)
    ensures var live := LiveAfter(bits, requests);
            && (forall i: nat, j: nat | i < j < |live| :: live[i] / PAGE_SIZE != live[j] / PAGE_SIZE)
            && forall i: nat | i < |live| ::
                 live[i] % PAGE_SIZE == 0 && Clear(live[i] / PAGE_SIZE, info, kernelStart, kernelEnd)
  {
    hide LiveAfter, InitialFree, RangesReservedWhole, Clear, Visited, FreesOnlyInside;
    LiveIsInitiallyFree(bits, info, kernelStart, kernelEnd, requests);
    var live := LiveAfter(bits, requests);
    forall i: nat | i < |live|
      ensures Clear(live[i] / PAGE_SIZE, info, kernelStart, kernelEnd)
    {
      var e := InitialFreeIsUsable(info, kernelStart, kernelEnd, live[i] / PAGE_SIZE);
    }
  }

  /** What the two give together when every available entry satisfies `FreesOnlyInside`: every
      page handed out is wholly available RAM and touches nothing that is in use. */
  lemma RunsHandOutUsablePages(bits: seq<bv32>, info: BootInfo, kernelStart: Word, kernelEnd: Word,
                               requests: seq<Request>)
    requires IsBitmap(bits) && FreePages(bits) == InitialFree(info, kernelStart, kernelEnd)
    requires RangesReservedWhole(info, kernelStart, kernelEnd)
    requires forall e | e in info.entries && e.kind == 1 :: FreesOnlyInside(e)
    ensures var live := LiveAfter(bits, requests);
            && (forall i: nat, j: nat | i < j < |live| :: live[i] / PAGE_SIZE != live[j] / PAGE_SIZE)
            && forall i: nat | i < |live| ::
                 && live[i] % PAGE_SIZE == 0
                 && Usable(live[i] / PAGE_SIZE, info, kernelStart, kernelEnd)
                 && PageIsRam(live[i] / PAGE_SIZE, info.entries)
  {
    hide LiveAfter, InitialFree, RangesReservedWhole, Clear, PageIsRam, Visited, FreesOnlyInside, InsideRegion;
    RunsStayClear(bits, info, kernelStart, kernelEnd, requests);
    RunsStayInRegions(bits, info, kernelStart, kernelEnd, requests);
  }

  /** On the memory map of an ordinary PC, whose low memory ends inside a page, every page any
      run hands out is clear of the kernel and the modules, and is wholly RAM unless it is
      page 0x9F. */
  lemma OrdinaryRunsExposeOnePage(bits: seq<bv32>, info: BootInfo, kernelStart: Word, kernelEnd: Word,
                                  requests: seq<Request>)
    requires IsBitmap(bits) && FreePages(bits) == InitialFree(info, kernelStart, kernelEnd)
    requires RangesReservedWhole(info, kernelStart, kernelEnd)
    requires info.entries == [LOW_MEMORY, HIGH_MEMORY]
    ensures var live := LiveAfter(bits, requests);
            forall i: nat | i < |live| ::
              && Clear(live[i] / PAGE_SIZE, info, kernelStart, kernelEnd)
              && (PageIsRam(live[i] / PAGE_SIZE, info.entries) <==> live[i] / PAGE_SIZE != 0x9F)
  {
    hide LiveAfter, RangesReservedWhole, Clear, PageIsRam, Available;
    RunsStayClear(bits, info, kernelStart, kernelEnd, requests);
    LiveIsInitiallyFree(bits, info, kernelStart, kernelEnd, requests);
    var live := LiveAfter(bits, requests);
    forall i: nat | i < |live|
      ensures PageIsRam(live[i] / PAGE_SIZE, info.entries) <==> live[i] / PAGE_SIZE != 0x9F
    {
      OrdinaryMapFreesOneBadPage(live[i] / PAGE_SIZE);
    }
  }
}
