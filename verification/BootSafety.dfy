/** What the initial free set means for memory: when every page in it is RAM that nothing else
    occupies, and inputs on which the code frees more than that. */
module BootSafety {
  import opened Words
  import opened PageBitmap
  import opened BootMap

  /** The address lies in the region the entry describes with its 64-bit fields. */
  predicate RegionHas(e: MapEntry, address: nat) {
    var base := e.baseHigh * WORD_LIMIT + e.baseLow;
    var length := e.lengthHigh * WORD_LIMIT + e.lengthLow;
    base <= address < base + length
  }

  /** Some available region has the address. */
  ghost predicate IsRam(address: nat, entries: seq<MapEntry>) {
    exists e | e in entries && e.kind == 1 :: RegionHas(e, address)
  }

  /** Every address of the page is RAM. */
  ghost predicate PageIsRam(p: nat, entries: seq<MapEntry>) {
    forall address: nat | PAGE_SIZE * p <= address < PAGE_SIZE * (p + 1) :: IsRam(address, entries)
  }

  /** No available region has an address in a page that another one frees. */
  ghost predicate Separated(entries: seq<MapEntry>) {
    forall e, f, address: nat |
      && e in entries && f in entries && e.kind == 1 && f.kind == 1 && e != f
      && RegionHas(f, address) ::
      address / PAGE_SIZE !in Visited(e.baseLow, e.lengthLow)
  }

  /** Two addresses decide whether a page lies inside a region: its first and its last. */
  lemma InsideByEnds(p: nat, e: MapEntry)
    ensures InsideRegion(p, e) <==>
            RegionHas(e, PAGE_SIZE * p) && RegionHas(e, PAGE_SIZE * p + (PAGE_SIZE - 1))
  {}

  lemma InsideIsRam(p: nat, e: MapEntry, entries: seq<MapEntry>)
    requires e in entries && e.kind == 1 && InsideRegion(p, e)
    ensures PageIsRam(p, entries)
  {
    forall address: nat | PAGE_SIZE * p <= address < PAGE_SIZE * (p + 1)
      ensures IsRam(address, entries)
    {
      assert RegionHas(e, address);
    }
  }

  /** Page by page, for every map: a freed page was visited for some available entry, and it is
      inside that entry's region, hence RAM, unless that very entry fails `FreesOnlyInside`. */
  lemma FreedByEntry(entries: seq<MapEntry>, p: nat) returns (e: MapEntry)
    requires p in Available(entries)
    ensures e in entries && e.kind == 1 && p in Visited(e.baseLow, e.lengthLow)
    ensures FreesOnlyInside(e) ==> InsideRegion(p, e) && PageIsRam(p, entries)
  {
    AvailableMember(entries, p);
    e :| e in entries && e.kind == 1 && p in Visited(e.baseLow, e.lengthLow);
    FreesOnlyRamExactly(e);
    if InsideRegion(p, e) {
      InsideIsRam(p, e, entries);
    }
  }

  /** When every available entry satisfies `FreesOnlyInside`, the whole map frees only RAM. */
  lemma MapFreesOnlyRam(entries: seq<MapEntry>, p: nat)
    requires forall e | e in entries && e.kind == 1 :: FreesOnlyInside(e)
    requires p in Available(entries)
    ensures exists e :: e in entries && e.kind == 1 && InsideRegion(p, e)
    ensures PageIsRam(p, entries)
  {
    var e := FreedByEntry(entries, p);
  }

  /** For a map whose available regions do not share pages that condition is exact: every page
      the map frees is RAM if and only if every available entry satisfies `FreesOnlyInside`. */
  lemma MapFreesOnlyRamExactly(entries: seq<MapEntry>)
    requires Separated(entries)
    ensures (forall p | p in Available(entries) :: PageIsRam(p, entries)) <==>
            forall e | e in entries && e.kind == 1 :: FreesOnlyInside(e)
  {
    if forall e | e in entries && e.kind == 1 :: FreesOnlyInside(e) {
      forall p | p in Available(entries)
        ensures PageIsRam(p, entries)
      {
        MapFreesOnlyRam(entries, p);
      }
    }
    if forall p | p in Available(entries) :: PageIsRam(p, entries) {
      forall e | e in entries && e.kind == 1
        ensures FreesOnlyInside(e)
      {
        forall p | p in Visited(e.baseLow, e.lengthLow)
          ensures InsideRegion(p, e)
        {
          AvailableMember(entries, p);
          FreedPageIsRamExactly(entries, e, p);
        }
        FreesOnlyRamExactly(e);
      }
    }
  }

  /** Page by page: when no regions share a page, a page freed for an entry is RAM if and only
      if it lies inside that entry's region. */
  lemma FreedPageIsRamExactly(entries: seq<MapEntry>, e: MapEntry, p: nat)
    requires Separated(entries) && e in entries && e.kind == 1
    requires p in Visited(e.baseLow, e.lengthLow)
    ensures PageIsRam(p, entries) <==> InsideRegion(p, e)
  {
    if InsideRegion(p, e) {
      InsideIsRam(p, e, entries);
    }
    if PageIsRam(p, entries) {
      OwnRegionHas(entries, e, p, PAGE_SIZE * p);
      OwnRegionHas(entries, e, p, PAGE_SIZE * p + (PAGE_SIZE - 1));
      InsideByEnds(p, e);
    }
  }

  lemma OwnRegionHas(entries: seq<MapEntry>, e: MapEntry, p: nat, address: nat)
    requires Separated(entries) && e in entries && e.kind == 1
    requires p in Visited(e.baseLow, e.lengthLow) && PageIsRam(p, entries)
    requires PAGE_SIZE * p <= address < PAGE_SIZE * (p + 1)
    ensures RegionHas(e, address)
  {
    assert IsRam(address, entries);
    var f :| f in entries && f.kind == 1 && RegionHas(f, address);
    assert address / PAGE_SIZE == p;
  }

  ghost predicate TouchesSome(p: nat, mods: seq<BootModule>) {
    exists m :: m in mods && Touches(p, m.start, m.end)
  }

  /** The pages that touch some module. */
  ghost function TouchingModules(mods: seq<BootModule>): set<nat> {
    set p: nat | p < PAGES && TouchesSome(p, mods)
  }

  /** The ranges of the kernel and of the modules are reserved whole; page-aligned starts do. */
  ghost predicate RangesReservedWhole(info: BootInfo, kernelStart: Word, kernelEnd: Word) {
    && ReservesWhole(Wrap(kernelStart - KERNEL_VIRTUAL_BASE), Wrap(kernelEnd - KERNEL_VIRTUAL_BASE))
    && (info.HasMods() ==> forall m | m in info.mods :: ReservesWhole(m.start, m.end))
  }

  /** The initial free set in the terms of the boot: the available pages that touch neither the
      kernel nor a module, without page 0. Nothing is asked of the memory map. */
  lemma InitialFreeExactly(info: BootInfo, kernelStart: Word, kernelEnd: Word)
    requires RangesReservedWhole(info, kernelStart, kernelEnd)
    ensures InitialFree(info, kernelStart, kernelEnd) ==
            (if info.HasMap() then Available(info.entries) else {})
            - Touching(Wrap(kernelStart - KERNEL_VIRTUAL_BASE), Wrap(kernelEnd - KERNEL_VIRTUAL_BASE))
            - (if info.HasMods() then TouchingModules(info.mods) else {})
            - {0}
  {
    ReservesAllTouchedExactly(Wrap(kernelStart - KERNEL_VIRTUAL_BASE), Wrap(kernelEnd - KERNEL_VIRTUAL_BASE));
    if info.HasMods() {
      ModulePagesAreTouching(info.mods);
    }
  }

  lemma ModulePagesAreTouching(mods: seq<BootModule>)
    requires forall m | m in mods :: ReservesWhole(m.start, m.end)
    ensures ModulePages(mods) == TouchingModules(mods)
  {
    hide Touches, ReservesWhole, Reserved;
    forall p: nat
      ensures p in ModulePages(mods) <==> p in TouchingModules(mods)
    {
      ModulePagesMember(mods, p);
      forall m | m in mods
        ensures p in Reserved(m.start, m.end) <==> p in Touching(m.start, m.end)
      {
        ReservesAllTouchedExactly(m.start, m.end);
      }
    }
  }

  /** A page clear of page 0, the kernel and the modules. */
  ghost predicate Clear(p: nat, info: BootInfo, kernelStart: Word, kernelEnd: Word) {
    && p != 0
    && !Touches(p, Wrap(kernelStart - KERNEL_VIRTUAL_BASE), Wrap(kernelEnd - KERNEL_VIRTUAL_BASE))
    && (info.HasMods() ==> forall m | m in info.mods :: !Touches(p, m.start, m.end))
  }

  /** A clear page wholly inside an available region. */
  ghost predicate Usable(p: nat, info: BootInfo, kernelStart: Word, kernelEnd: Word) {
    && Clear(p, info, kernelStart, kernelEnd)
    && exists e :: e in info.entries && e.kind == 1 && InsideRegion(p, e)
  }

  /** An initially free page is clear, with no condition on the memory map; and it is usable
      unless the entry that freed it fails `FreesOnlyInside`. */
  lemma InitialFreeIsUsable(info: BootInfo, kernelStart: Word, kernelEnd: Word, p: nat) returns (e: MapEntry)
    requires RangesReservedWhole(info, kernelStart, kernelEnd)
    requires p in InitialFree(info, kernelStart, kernelEnd)
    ensures Clear(p, info, kernelStart, kernelEnd)
    ensures e in info.entries && e.kind == 1 && p in Visited(e.baseLow, e.lengthLow)
    ensures FreesOnlyInside(e) ==> Usable(p, info, kernelStart, kernelEnd) && PageIsRam(p, info.entries)
  {
    InitialFreeExactly(info, kernelStart, kernelEnd);
    e := FreedByEntry(info.entries, p);
    assert p < PAGES;
  }

  /** Both ways: when every entry also frees all it should, the initially free pages are exactly
      the usable ones. */
  lemma InitialFreeIsAllUsable(info: BootInfo, kernelStart: Word, kernelEnd: Word, p: nat)
    requires RangesReservedWhole(info, kernelStart, kernelEnd) && info.HasMap() && p < PAGES
    requires forall e | e in info.entries && e.kind == 1 :: FreesOnlyInside(e) && FreesAllInside(e)
    ensures p in InitialFree(info, kernelStart, kernelEnd) <==> Usable(p, info, kernelStart, kernelEnd)
  {
    hide FreesOnlyInside, FreesAllInside, InsideRegion, Visited, Touches, ReservesWhole, InitialFree;
    if p in InitialFree(info, kernelStart, kernelEnd) {
      var e := InitialFreeIsUsable(info, kernelStart, kernelEnd, p);
    } else if Usable(p, info, kernelStart, kernelEnd) {
      var e :| e in info.entries && e.kind == 1 && InsideRegion(p, e);
      FreesAllRamExactly(e);
      AvailableMember(info.entries, p);
      InitialFreeExactly(info, kernelStart, kernelEnd);
      assert false;
    }
  }

  // ---- inputs on which the code frees more ----

  const KERNEL_START: Word := 0xC010_0000
  const KERNEL_END: Word := 0xC010_8000

  /** A boot with a single map entry and no modules. */
  function OneEntry(e: MapEntry): BootInfo {
    BootInfo(0x40, Wrap(e.size + 4), [e], [])
  }

  lemma OneEntryFree(e: MapEntry, p: nat)
    requires e.kind == 1 && p in Visited(e.baseLow, e.lengthLow)
    requires p != 0 && !(0x100 <= p <= 0x108)
    ensures p in InitialFree(OneEntry(e), KERNEL_START, KERNEL_END)
  {
    assert OneEntry(e).HasMap() && !OneEntry(e).HasMods();
    AvailableMember([e], p);
    assert e in [e];
  }

  /** The ordinary low-memory entry of a PC ends inside page 0x9F: that page is free after
      initialisation although its last kilobyte is not RAM. */
  lemma LowMemoryFreesPartialPage()
    ensures var e := MapEntry(20, 0, 0, 0x9_FC00, 0, 1);
            && Bootable(OneEntry(e), KERNEL_START, KERNEL_END)
            && 0x9F in InitialFree(OneEntry(e), KERNEL_START, KERNEL_END)
            && !IsRam(0x9_FC00, [e]) && !PageIsRam(0x9F, [e])
  {
    var e := MapEntry(20, 0, 0, 0x9_FC00, 0, 1);
    assert Strides(0x9_FC00) == 0xA0;
    OneEntryFree(e, 0x9F);
    assert OneEntry(e).entries[..0] == [];
    assert !IsRam(0x9_FC00, [e]);
  }

  const LOW_MEMORY := MapEntry(20, 0, 0, 0x9_FC00, 0, 1)
  const HIGH_MEMORY := MapEntry(20, 0x10_0000, 0, 0x7EE_0000, 0, 1)

  /** On a PC with 128 MiB that entry costs exactly one page: of all the pages the map frees,
      page 0x9F and no other is not wholly RAM. */
  lemma OrdinaryMapFreesOneBadPage(p: nat)
    requires p in Available([LOW_MEMORY, HIGH_MEMORY])
    ensures PageIsRam(p, [LOW_MEMORY, HIGH_MEMORY]) <==> p != 0x9F
  {
    var entries := [LOW_MEMORY, HIGH_MEMORY];
    assert Strides(LOW_MEMORY.lengthLow) == 0xA0 && Strides(HIGH_MEMORY.lengthLow) == 0x7EE0;
    assert Separated(entries);
    AvailableMember(entries, p);
    var e :| e in entries && e.kind == 1 && p in Visited(e.baseLow, e.lengthLow);
    FreedPageIsRamExactly(entries, e, p);
  }

  /** RAM above 4 GiB frees low pages: its high base word is ignored, and page 0xB8, the text
      mode video memory, is free after initialisation. */
  lemma HighMemoryFreesVideoMemory()
    ensures var e := MapEntry(20, 0, 1, 0x4000_0000, 0, 1);
            && Bootable(OneEntry(e), KERNEL_START, KERNEL_END)
            && 0xB8 in InitialFree(OneEntry(e), KERNEL_START, KERNEL_END)
            && !IsRam(0xB_8000, [e]) && !PageIsRam(0xB8, [e])
  {
    var e := MapEntry(20, 0, 1, 0x4000_0000, 0, 1);
    assert Strides(0x4000_0000) == 0x4_0000;
    OneEntryFree(e, 0xB8);
    assert OneEntry(e).entries[..0] == [];
    assert !IsRam(0xB_8000, [e]);
  }

  /** Regions that abut inside a page show why exactness for the map needs `Separated`: the
      shared page is freed and is RAM, but lies inside neither region. */
  lemma AbuttingRegionsShareAPage()
    ensures var e, f := MapEntry(20, 0x1000, 0, 0x800, 0, 1), MapEntry(20, 0x1800, 0, 0x800, 0, 1);
            && 1 in Available([e, f]) && PageIsRam(1, [e, f])
            && !FreesOnlyInside(e) && !FreesOnlyInside(f)
            && !InsideRegion(1, e) && !InsideRegion(1, f)
  {
    var e, f := MapEntry(20, 0x1000, 0, 0x800, 0, 1), MapEntry(20, 0x1800, 0, 0x800, 0, 1);
    assert Strides(0x800) == 1;
    assert e in [e, f] && f in [e, f];
    AvailableMember([e, f], 1);
    forall address: nat | PAGE_SIZE * 1 <= address < PAGE_SIZE * (1 + 1)
      ensures IsRam(address, [e, f])
    {
      assert RegionHas(e, address) || RegionHas(f, address);
    }
  }

  /** A module that starts deeper into its page than it ends keeps its last page free. */
  lemma UnalignedModuleStaysFree()
    ensures var e := MapEntry(20, 0x10_0000, 0, 0x100_0000, 0, 1);
            var m := BootModule(0x20_0800, 0x20_1400);
            var info := BootInfo(0x48, 24, [e], [m]);
            && Bootable(info, KERNEL_START, KERNEL_END)
            && Touches(0x201, m.start, m.end)
            && 0x201 in InitialFree(info, KERNEL_START, KERNEL_END)
  {
    var e := MapEntry(20, 0x10_0000, 0, 0x100_0000, 0, 1);
    var m := BootModule(0x20_0800, 0x20_1400);
    var info := BootInfo(0x48, 24, [e], [m]);
    assert Strides(0x100_0000) == 0x1000;
    assert e in info.entries && info.entries[..0] == [] && info.mods[..0] == [];
    AvailableMember(info.entries, 0x201);
    ModulePagesMember(info.mods, 0x201);
    assert 0x201 !in Reserved(m.start, m.end);
  }

  // ---- constants of the boot protocol ----

  /** Bit 3 of the flags announces modules, bit 6 the memory map. */
  lemma FlagBits(info: BootInfo)
    ensures info.HasMods() <==> (info.flags >> 3) & 1 == 1
    ensures info.HasMap() <==> (info.flags >> 6) & 1 == 1
  {}

  /** Both bits matter: with bit 3 a module's page stays reserved, without it the same page is
      free, and without bit 6 nothing is. The kernel is linked 3 GiB above where it is loaded. */
  lemma FlagsDecide()
    ensures var m := BootModule(0x20_0000, 0x20_0FFF);
            && 0x200 !in InitialFree(BootInfo(0x48, 24, [HIGH_MEMORY], [m]), KERNEL_START, KERNEL_END)
            && 0x200 in InitialFree(BootInfo(0x40, 24, [HIGH_MEMORY], [m]), KERNEL_START, KERNEL_END)
            && InitialFree(BootInfo(0x08, 24, [HIGH_MEMORY], [m]), KERNEL_START, KERNEL_END) == {}
            && 0x100 !in InitialFree(BootInfo(0x40, 24, [HIGH_MEMORY], [m]), KERNEL_START, KERNEL_END)
            && 0x108 !in InitialFree(BootInfo(0x40, 24, [HIGH_MEMORY], [m]), KERNEL_START, KERNEL_END)
            && 0x109 in InitialFree(BootInfo(0x40, 24, [HIGH_MEMORY], [m]), KERNEL_START, KERNEL_END)
  {
    var m := BootModule(0x20_0000, 0x20_0FFF);
    assert m in [m] && HIGH_MEMORY in [HIGH_MEMORY];
    assert Strides(0x7EE_0000) == 0x7EE0;
    AvailableMember([HIGH_MEMORY], 0x200);
    AvailableMember([HIGH_MEMORY], 0x109);
    ModulePagesMember([m], 0x200);
    assert 0x200 in Reserved(m.start, m.end);
    var plain := BootInfo(0x40, 24, [HIGH_MEMORY], [m]);
    assert plain.HasMap() && !plain.HasMods();
    assert BootInfo(0x48, 24, [HIGH_MEMORY], [m]).HasMods();
    assert !BootInfo(0x08, 24, [HIGH_MEMORY], [m]).HasMap();
  }
}
