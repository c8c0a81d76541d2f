/** pager_init finds memory for its tables on every machine with one RAM area of 4 MiB or more: how many
    tables a range needs, and that the bitmap hands them out. */
module BootRoom {
  import opened Words
  import opened Physical
  import opened Regions
  import opened Paging
  import opened Addresses
  import opened MemoryState
  import opened Mapping
  import opened RangeMapping
  import opened AvmfRuns
  import opened Boot
  import opened AllocLimits

  /** Only tables have been taken, one after the other from page `first` of the only RAM range, which ends
      before page `end`. */
  ghost predicate Fresh(s: Mem, first: nat, end: nat) {
    var c := |s.runs|;
    && !s.failed && 1 <= first < end <= BITMAP_PAGES && c <= 1000
    && s.phys.ranges != [] && s.phys.ranges[0] == Range(first * PAGE_SIZE, end * PAGE_SIZE)
    && s.phys.used == Physical.Pages(first, c) && s.phys.hint == (if c == 0 then 0 else first + c)
    && |s.table.headers| == c && s.heaps.sensitive == SENSITIVE_SPACE_BASE + c * PAGE_SIZE
  }

  /** n more tables can be taken. */
  predicate Room(s: Mem, first: nat, end: nat, n: nat) {
    first + |s.runs| + n <= end && |s.runs| + n <= 1000
  }

  ghost predicate Grows(s: Mem, s': Mem, first: nat, end: nat, n: nat) {
    Fresh(s', first, end) && |s.runs| <= |s'.runs| <= |s.runs| + n
  }

  lemma NextPage(ph: Phys, first: nat, end: nat, c: nat)
    requires 1 <= first && first + c < end <= BITMAP_PAGES
    requires ph.ranges != [] && ph.ranges[0] == Range(first * PAGE_SIZE, end * PAGE_SIZE)
    requires ph.used == Physical.Pages(first, c) && ph.hint == (if c == 0 then 0 else first + c)
    ensures AllocPhys(ph, PAGE_SIZE)
            == (ph.(used := Physical.Pages(first, c + 1), hint := first + c + 1), (first + c) * PAGE_SIZE)
  {
    AlignOnePage();
    RangePages(first, end);
    assert FreeRun(ph.used, first + c, 1);
    assert ph.used + Physical.Pages(first + c, 1) == Physical.Pages(first, c + 1);
    hide Align4k;
  }

  lemma RangePages(first: nat, end: nat)
    requires 1 <= first < end <= BITMAP_PAGES
    ensures var r := Range(first * PAGE_SIZE, end * PAGE_SIZE);
            r.FirstPage() == first && r.EndPage() == end && r.Usable()
  {
  }

  lemma FreshTable(s: Mem, first: nat, end: nat)
    requires Fresh(s, first, end) && Room(s, first, end, 1)
    ensures Grows(s, AllocTable(s).0, first, end, 1)
  {
    var c := |s.runs|;
    NextPage(s.phys, first, end, c);
    AlignOnePage();
    hide AllocPhys, Align4k, Physical.Pages;
  }

  lemma FreshDescend(s: Mem, t: nat, i: Index, first: nat, end: nat)
    requires Fresh(s, first, end) && Room(s, first, end, 1)
    ensures Grows(s, Descend(s, t, i).0, first, end, 1)
  {
    hide AllocTable, Store, Physical.Pages;
    if !Present(Entry(s.pages, t, i)) {
      FreshTable(s, first, end);
    }
  }

  lemma FreshMap(s: Mem, virt: nat, phys: nat, flags: nat, first: nat, end: nat)
    requires Fresh(s, first, end) && Room(s, first, end, 3)
    ensures Grows(s, MapPage(s, virt, phys, flags), first, end, 3)
  {
    hide Descend, Store, Physical.Pages, Pow2, VPageOf, SmallEntry, HugeEntry, Huge;
    if phys < Pow2(s.physBits) {
      var v := VPageOf(virt);
      var (s1, pdpt) := Descend(s, s.root, v.i4);
      var (s2, pd) := Descend(s1, pdpt, v.i3);
      FreshDescend(s, s.root, v.i4, first, end);
      FreshDescend(s1, pdpt, v.i3, first, end);
      FreshDescend(s2, pd, v.i2, first, end);
    }
  }

  /** The slot of v has its table, or is mapped whole: a 4 KiB mapping there takes no page. */
  ghost predicate Ready(s: Mem, v: VPage) {
    TableAt(s.pages, s.root, PtNode(v)).Some?
  }

  lemma ReadyMap(s: Mem, virt: nat, phys: nat, flags: nat, first: nat, end: nat)
    requires Fresh(s, first, end) && Ready(s, VPageOf(virt))
    ensures Grows(s, MapPage(s, virt, phys, flags), first, end, 0)
  {
    hide VPageOf, Physical.Pages, Pow2, SmallEntry;
    if phys < Pow2(s.physBits) {
      var v := VPageOf(virt);
      assert TableAt(s.pages, s.root, PdNode(v)).Some?;
      PdIsReached(s, v);
      assert Present(Entry(s.pages, TableAt(s.pages, s.root, PdNode(v)).value, v.i2));
    }
  }

  /** After a 4 KiB mapping the slot has its table. */
  lemma ReadyAfter(s: Mem, virt: nat, phys: nat, flags: nat)
    requires PagerOk(s) && phys < Pow2(s.physBits) && !Huge(flags) && !HugeSlot(s.pages, s.root, VPageOf(virt))
    requires !MapPage(s, virt, phys, flags).failed
    ensures Ready(MapPage(s, virt, phys, flags), VPageOf(virt))
  {
    hide MapPage, HugeSlot, VPageOf, Pow2, PagerOk, Extends, TableAt, Attrs;
    MapSmall(s, virt, phys, flags);
  }

  // ----- how many tables a range needs

  /** The number of the slot of page k, counted through the 64-bit space. */
  function SlotNumber(virt: nat, k: nat): nat { (virt / PAGE_SIZE + k) / SLOT_PAGES }

  /** Three tables for every slot that pages k..n touch, less the first one's if it is there. */
  function Tables(virt: nat, k: nat, n: nat, ready: bool): nat {
    if k >= n then 0 else 3 * (SlotNumber(virt, n - 1) - SlotNumber(virt, k) + (if ready then 0 else 1))
  }

  lemma NextSlot(virt: nat, k: nat)
    requires SlotNumber(virt, k) == SlotNumber(virt, k + 1)
    ensures PtNode(VPageOf(PageAddress(virt, k))) == PtNode(VPageOf(PageAddress(virt, k + 1)))
  {
    hide VPageOf, PageAddress, VNum;
    PageAddressNumber(virt, k);
    PageAddressNumber(virt, k + 1);
    var v, w := VPageOf(PageAddress(virt, k)), VPageOf(PageAddress(virt, k + 1));
    NextInSlot(virt / PAGE_SIZE + k);
    var start := v.(i1 := 0);
    SlotNumbers(start, v);
    SlotNumbers(start, w);
    SlotBounds(VNum(start), VNum(v), VNum(w));
  }

  lemma SlotBounds(base: nat, a: nat, b: nat)
    requires base % 512 == 0 && base <= a < base + 512 && a / 512 == b / 512
    ensures base <= b < base + 512
  {
  }

  lemma NextInSlot(n: nat)
    requires n / 512 == (n + 1) / 512
    ensures n % SPACE_PAGES / 512 == (n + 1) % SPACE_PAGES / 512
  {
    var q, r := n / SPACE_PAGES, n % SPACE_PAGES;
    assert n == q * SPACE_PAGES + r;
    assert n / 512 == q * (SPACE_PAGES / 512) + r / 512;
    if r + 1 < SPACE_PAGES {
      assert n + 1 == q * SPACE_PAGES + (r + 1);
      assert (n + 1) % SPACE_PAGES == r + 1;
    }
  }

  lemma FirstIsFree(s: Mem, virt: nat, k: nat, n: nat)
    requires SlotsFree(s, virt, k, n) && k < n <= SPACE_PAGES
    ensures !HugeSlot(s.pages, s.root, VPageOf(PageAddress(virt, k)))
  {
    hide HugeSlot, VPageOf, PageAddress, Offset;
    OffsetExact(virt, k, VPageOf(PageAddress(virt, k)));
  }

  /** One step of pager_map_range takes at most three tables, and none where the slot has its table. */
  lemma StepRoom(s: Mem, virt: nat, phys: nat, size: nat, flags: nat, k: nat, first: nat, end: nat, ready: bool)
    requires PagerOk(s) && RangeOk(s, virt, phys, size, flags) && SlotsFree(s, virt, k, PageCount(size))
    requires Fresh(s, first, end) && k * PAGE_SIZE < size
    requires ready ==> Ready(s, VPageOf(PageAddress(virt, k)))
    requires Room(s, first, end, Tables(virt, k, PageCount(size), ready))
    ensures var whole := Promotes(virt, phys, size, k * PAGE_SIZE);
            var s1 := MapPage(s, PageAddress(virt, k), phys + k * PAGE_SIZE, if whole then OrHuge(flags) else flags);
            var mid, n := if whole then k + SLOT_PAGES else k + 1, PageCount(size);
            var soon := !whole && SlotNumber(virt, k) == SlotNumber(virt, k + 1);
            && Fresh(s1, first, end) && |s.runs| <= |s1.runs|
            && |s1.runs| + Tables(virt, mid, n, soon) <= |s.runs| + Tables(virt, k, n, ready)
            && (soon ==> Ready(s1, VPageOf(PageAddress(virt, k + 1))))
  {
    hide MapPage, VPageOf, PageAddress, PagerOk, SlotsFree, Offset, Pow2, HugeSlot, Physical.Pages;
    StepAddresses(s, virt, phys, size, flags, k);
    StepFits(virt, phys, size, k);
    var whole := Promotes(virt, phys, size, k * PAGE_SIZE);
    var n := PageCount(size);
    if ready {
      ReadyMap(s, PageAddress(virt, k), phys + k * PAGE_SIZE, if whole then OrHuge(flags) else flags, first, end);
    } else {
      FreshMap(s, PageAddress(virt, k), phys + k * PAGE_SIZE, if whole then OrHuge(flags) else flags, first, end);
    }
    if !whole {
      FirstIsFree(s, virt, k, n);
      ReadyAfter(s, PageAddress(virt, k), phys + k * PAGE_SIZE, flags);
      if SlotNumber(virt, k) == SlotNumber(virt, k + 1) {
        NextSlot(virt, k);
      }
    }
  }

  /** pager_map_range finds memory for its tables: three for every slot it touches are enough. */
  lemma {:induction false} MapRangeRoom(s: Mem, virt: nat, phys: nat, size: nat, flags: nat, k: nat,
                                        first: nat, end: nat, ready: bool)
    requires PagerOk(s) && RangeOk(s, virt, phys, size, flags) && SlotsFree(s, virt, k, PageCount(size))
    requires Fresh(s, first, end) && (ready && k * PAGE_SIZE < size ==> Ready(s, VPageOf(PageAddress(virt, k))))
    requires Room(s, first, end, Tables(virt, k, PageCount(size), ready))
    ensures Grows(s, MapRange(s, virt, phys, size, flags, k * PAGE_SIZE), first, end,
                  Tables(virt, k, PageCount(size), ready))
    decreases PageCount(size) - k
  {
    hide MapPage, VPageOf, PageAddress, PagerOk, Offset, Pow2, HugeSlot, Physical.Pages, Tables, SlotNumber, TreeWalk;
    hide Ready, SlotsFree, StepEffect, Attrs, Extends;
    if k * PAGE_SIZE < size {
      StepAddresses(s, virt, phys, size, flags, k);
      var whole := Promotes(virt, phys, size, k * PAGE_SIZE);
      var s1 := MapPage(s, PageAddress(virt, k), phys + k * PAGE_SIZE, if whole then OrHuge(flags) else flags);
      var mid := if whole then k + SLOT_PAGES else k + 1;
      var soon := !whole && SlotNumber(virt, k) == SlotNumber(virt, k + 1);
      assert MapRange(s, virt, phys, size, flags, k * PAGE_SIZE)
          == MapRange(s1, virt, phys, size, flags, mid * PAGE_SIZE);
      StepRoom(s, virt, phys, size, flags, k, first, end, ready);
      StepPager(s, virt, phys, size, flags, k);
      MapRangeRoom(s1, virt, phys, size, flags, mid, first, end, soon);
    }
  }

  lemma StepPager(s: Mem, virt: nat, phys: nat, size: nat, flags: nat, k: nat)
    requires PagerOk(s) && RangeOk(s, virt, phys, size, flags) && SlotsFree(s, virt, k, PageCount(size))
    requires k * PAGE_SIZE < size
    requires var whole := Promotes(virt, phys, size, k * PAGE_SIZE);
             !MapPage(s, PageAddress(virt, k), phys + k * PAGE_SIZE, if whole then OrHuge(flags) else flags).failed
    ensures var whole := Promotes(virt, phys, size, k * PAGE_SIZE);
            var s1 := MapPage(s, PageAddress(virt, k), phys + k * PAGE_SIZE, if whole then OrHuge(flags) else flags);
            && PagerOk(s1) && RangeOk(s1, virt, phys, size, flags)
            && SlotsFree(s1, virt, if whole then k + SLOT_PAGES else k + 1, PageCount(size))
  {
    hide MapPage, VPageOf, PageAddress, PagerOk, Offset, Pow2, HugeSlot, TreeWalk, Extends, Attrs;
    StepAddresses(s, virt, phys, size, flags, k);
    StepFits(virt, phys, size, k);
    FirstIsFree(s, virt, k, PageCount(size));
    if Promotes(virt, phys, size, k * PAGE_SIZE) {
      WholeStepEffect(s, virt, phys, flags, k);
    } else {
      SmallStepEffect(s, virt, phys, flags, k);
    }
  }

  // ----- pager_init with one RAM area

  function OneArea(base: nat, len: nat): seq<E820Entry> { [E820Entry(base, len, E820_TYPE_RAM)] }

  /** A RAM area of 4 MiB or more, page aligned, above page 0 and below 512 MiB. */
  predicate AreaOk(base: nat, len: nat) {
    && base % PAGE_SIZE == 0 && len % PAGE_SIZE == 0
    && PAGE_SIZE <= base && 0x40_0000 <= len && base + len <= BITMAP_PAGES * PAGE_SIZE
  }

  lemma AreaRanges(base: nat, len: nat)
    requires AreaOk(base, len)
    ensures var entries := OneArea(base, len);
            && RamRanges(entries) == [Range(base, base + len)] && RangesOk(RamRanges(entries)) && MapOk(entries)
            && RangeTable(entries)[0] == Range(base, base + len)
  {
    var entries := OneArea(base, len);
    assert RamRanges(entries[1..]) == [];
    RangePages(base / PAGE_SIZE, (base + len) / PAGE_SIZE);
  }

  lemma RootRoom(memory: Memory, bits: nat, base: nat, len: nat)
    requires AreaOk(base, len)
    ensures var s := RootAllocated(BeforeTables(memory, RangeTable(OneArea(base, len)), bits));
            Fresh(s, base / PAGE_SIZE, (base + len) / PAGE_SIZE) && |s.runs| == 1 && s.root == base / PAGE_SIZE
  {
    hide RamRanges, RangesOk, MapOk, AllocTable;
    AreaRanges(base, len);
    var s0 := BeforeTables(memory, RangeTable(OneArea(base, len)), bits);
    var first, end := base / PAGE_SIZE, (base + len) / PAGE_SIZE;
    assert Physical.Pages(first, 0) == {};
    FirstTable(s0, first, end);
  }

  lemma FirstTable(s: Mem, first: nat, end: nat)
    requires Fresh(s, first, end) && Room(s, first, end, 1)
    ensures var (s', n) := AllocTable(s);
            Grows(s, s', first, end, 1) && n == first + |s.runs| && |s'.runs| == |s.runs| + 1
  {
    NextPage(s.phys, first, end, |s.runs|);
    AlignOnePage();
    hide AllocPhys, Align4k, Physical.Pages;
  }

  lemma TablesNeeded(size: nat)
    requires 0 < size <= BITMAP_PAGES * PAGE_SIZE
    ensures Tables(DIRECT_MAP_BASE, 0, PageCount(size), false) <= 768
    ensures Tables(FIRMWARE_BASE, 0, PageCount(0x00FF_FFFF), false) == 24
    ensures Tables(0, 0, PageCount(0x8_0000), false) == 3
    ensures Tables(0x10_0000, 0, PageCount(0x20_0000), false) == 6
  {
  }

  /** The direct map of the area. */
  lemma DirectRoom(s: Mem, base: nat, len: nat)
    requires AreaOk(base, len) && BootOk(s) && (forall w :: !HugeSlot(s.pages, s.root, w))
    requires Fresh(s, base / PAGE_SIZE, (base + len) / PAGE_SIZE) && |s.runs| == 1
    ensures var s' := MapRange(s, DIRECT_MAP_BASE, 0, base + len, DIRECT_FLAGS, 0);
            MapEntries(s, OneArea(base, len), 0, 0) == (s', base + len)
            && Grows(s, s', base / PAGE_SIZE, (base + len) / PAGE_SIZE, 768)
  {
    hide MapRange, HugeSlot, Tables, Physical.Pages, Pow2, LedgerOk, TablesOk, HeadersOk;
    var first, end := base / PAGE_SIZE, (base + len) / PAGE_SIZE;
    AreaLimit(s, base, len);
    TablesNeeded(base + len);
    EntryPages(0, base + len);
    MapRangeRoom(s, DIRECT_MAP_BASE, 0, base + len, DIRECT_FLAGS, 0, first, end, false);
    var e := OneArea(base, len)[0];
    assert MapEntries(MapRange(s, DIRECT_MAP_BASE, 0, base + len, DIRECT_FLAGS, 0), OneArea(base, len), 1, base + len)
        == (MapRange(s, DIRECT_MAP_BASE, 0, base + len, DIRECT_FLAGS, 0), base + len);
  }

  lemma AreaLimit(s: Mem, base: nat, len: nat)
    requires AreaOk(base, len) && 32 <= s.physBits
    ensures base + len < Pow2(s.physBits)
    ensures base / PAGE_SIZE + 1000 < (base + len) / PAGE_SIZE
  {
    Pow2Values();
    Pow2Monotone(32, s.physBits);
  }

  lemma LowRoom(s: Mem, low: nat, size: nat, first: nat, end: nat)
    requires BootOk(s) && 0 < size && low + PageCount(size) <= 0x10_0000
    requires forall w :: low <= VNum(w) < low + PageCount(size) ==> !HugeSlot(s.pages, s.root, w)
    requires Fresh(s, first, end)
    requires Room(s, first, end, Tables(low * PAGE_SIZE, 0, PageCount(size), false))
    ensures Grows(s, MapRange(s, low * PAGE_SIZE, low * PAGE_SIZE, size, LINK_FLAGS, 0), first, end,
                  Tables(low * PAGE_SIZE, 0, PageCount(size), false))
  {
    hide MapRange, HugeSlot, Tables, Physical.Pages, Offset, VNum, LedgerOk, TablesOk, HeadersOk;
    LowRangeOk(s, low, size);
    forall w | 0 <= Offset(low * PAGE_SIZE, w) < PageCount(size)
      ensures !HugeSlot(s.pages, s.root, w)
    {
      LowNumbers(low, PageCount(size), w);
    }
    MapRangeRoom(s, low * PAGE_SIZE, low * PAGE_SIZE, size, LINK_FLAGS, 0, first, end, false);
  }

  lemma IdentityRoom(s: Mem, first: nat, end: nat)
    requires BootOk(s) && OnlyWindow(s, WINDOW_PAGES) && Fresh(s, first, end) && Room(s, first, end, 33)
    ensures Grows(s, IdentityMaps(s), first, end, 33)
  {
    hide BootOk, TreeWalk, HugeSlot, WindowPage, VNum, MapRange, WholeStep, Attrs, Tables, Physical.Pages, Fresh;
    forall w
      ensures WindowPage(w) < WINDOW_PAGES <==> DirectPage(w)
      ensures WholeStep(0xF_F000 * PAGE_SIZE, 0xF_F000 * PAGE_SIZE, 0x00FF_FFFF, 0, w) <==> WholeFirmwarePage(w)
      ensures !WholeStep(0, 0, 0x8_0000, 0, w)
    {
      WindowNumbers(w);
      FirmwareSteps(w);
    }
    TablesNeeded(1);
    var firmware := MapRange(s, FIRMWARE_BASE, FIRMWARE_BASE, 0x00FF_FFFF, LINK_FLAGS, 0);
    LowRoom(s, 0xF_F000, 0x00FF_FFFF, first, end);
    NotFailed(firmware, first, end);
    IdentityEffect(s, 0xF_F000, 0x00FF_FFFF);
    var stack := MapRange(firmware, 0, 0, 0x8_0000, LINK_FLAGS, 0);
    LowRoom(firmware, 0, 0x8_0000, first, end);
    NotFailed(stack, first, end);
    IdentityEffect(firmware, 0, 0x8_0000);
    LowRoom(stack, 0x100, 0x20_0000, first, end);
  }

  lemma NotFailed(s: Mem, first: nat, end: nat)
    requires Fresh(s, first, end)
    ensures !s.failed
  {
  }

  /** A machine with one such area boots: pager_init finds memory for all its tables, maps all of it, and
      leaves pages and headers for its clients. */
  lemma SmallMachineBoots(memory: Memory, bits: nat, base: nat, len: nat)
    requires AreaOk(base, len) && 32 <= bits <= 52
    ensures Booted(memory, bits, OneArea(base, len))
    ensures var (s, end) := PagerInit(memory, bits, OneArea(base, len));
            && end == base + len && s.root == base / PAGE_SIZE
            && AllocPhys(s.phys, PAGE_SIZE).1 != 0 && |s.table.headers| < STATIC_HEADERS
  {
    hide RootAllocated, MapRange, MapEntries, IdentityMaps, BootOk, TreeWalk, HugeSlot, Pow2, RamRanges, RangesOk;
    hide MapOk, Fresh, AllocPhys, Covered, OnlyWindow;
    var entries, first, end := OneArea(base, len), base / PAGE_SIZE, (base + len) / PAGE_SIZE;
    AreaRanges(base, len);
    RangeTableOk(entries);
    RootRoom(memory, bits, base, len);
    var s1 := RootAllocated(BeforeTables(memory, RangeTable(entries), bits));
    NotFailed(s1, first, end);
    RootOk(memory, RangeTable(entries), bits);
    DirectRoom(s1, base, len);
    var s2 := MapEntries(s1, entries, 0, 0).0;
    NotFailed(s2, first, end);
    NothingCovered(s1);
    DirectMapFrom(s1, entries, 0, 0);
    AreaLimit(s1, base, len);
    WindowAll(s2, (base + len) / PAGE_SIZE);
    IdentityRoom(s2, first, end);
    RoomLeft(IdentityMaps(s2), first, end);
  }

  lemma WindowAll(s: Mem, n: nat)
    requires OnlyWindow(s, n) && n <= WINDOW_PAGES
    ensures OnlyWindow(s, WINDOW_PAGES)
  {
    hide HugeSlot, WindowPage;
  }

  lemma RoomLeft(s: Mem, first: nat, end: nat)
    requires Fresh(s, first, end) && first + 1000 < end
    ensures !s.failed && AllocPhys(s.phys, PAGE_SIZE).1 != 0 && |s.table.headers| < STATIC_HEADERS
  {
    NextPage(s.phys, first, end, |s.runs|);
    hide AllocPhys;
  }

  // ----- a machine on which the limits of avmf_alloc are reached

  /** The slots of the direct map that lie below the end of the area are mapped whole. */
  lemma WholeDirectStep(size: nat, w: VPage)
    requires 0 < size <= BITMAP_PAGES * PAGE_SIZE && WindowPage(w) < WINDOW_PAGES
    requires (WindowPage(w) - w.i1) * PAGE_SIZE + SLOT_SIZE <= size
    ensures WholeStep(DIRECT_MAP_BASE, 0, size, 0, w)
  {
    hide VNum;
    WindowNumbers(w);
    var d := DIRECT_MAP_BASE / PAGE_SIZE;
    WindowOffset(w);
    SlotBase(w);
    var j := VNum(w) - w.i1 - 0x8_0000_0000;
    assert WindowPage(w) - w.i1 == j;
    assert j % 512 == 0;
    WholeDirectPromotes(size, j);
  }

  lemma WindowOffset(w: VPage)
    requires DirectPage(w)
    ensures WindowPage(w) == VNum(w) - 0x8_0000_0000
  {
    hide VNum;
    var d := DIRECT_MAP_BASE / PAGE_SIZE;
    SubtractModSpace(VNum(w), d, VNum(w) - 0x8_0000_0000);
    assert d + (VNum(w) - 0x8_0000_0000) == 0xFFFF * SPACE_PAGES + VNum(w);
  }

  lemma WholeDirectPromotes(size: nat, j: nat)
    requires j % 512 == 0 && j * PAGE_SIZE + SLOT_SIZE <= size <= BITMAP_PAGES * PAGE_SIZE
    ensures Promotes(DIRECT_MAP_BASE, 0, size, j * PAGE_SIZE)
  {
    var q := j / 512;
    assert j * PAGE_SIZE == q * SLOT_SIZE;
    assert DIRECT_MAP_BASE == 0x7FF_FC00_0000 * SLOT_SIZE;
    assert (DIRECT_MAP_BASE + j * PAGE_SIZE) % SLOT_SIZE == 0;
  }

  lemma DirectSlotIsWhole(memory: Memory, bits: nat, base: nat, len: nat, w: VPage)
    requires AreaOk(base, len) && 32 <= bits <= 52 && WindowPage(w) < WINDOW_PAGES
    requires (WindowPage(w) - w.i1) * PAGE_SIZE + SLOT_SIZE <= base + len
    ensures var s := PagerInit(memory, bits, OneArea(base, len)).0; HugeSlot(s.pages, s.root, w)
  {
    hide RootAllocated, MapRange, MapEntries, IdentityMaps, BootOk, TreeWalk, Pow2, RamRanges, RangesOk, MapOk;
    hide Fresh, AllocPhys, Covered, OnlyWindow, WholeStep, WindowPage, HugeSlot;
    var entries := OneArea(base, len);
    AreaRanges(base, len);
    RangeTableOk(entries);
    SmallMachineBoots(memory, bits, base, len);
    var s1 := RootAllocated(BeforeTables(memory, RangeTable(entries), bits));
    RootRoom(memory, bits, base, len);
    NotFailed(s1, base / PAGE_SIZE, (base + len) / PAGE_SIZE);
    RootOk(memory, RangeTable(entries), bits);
    DirectRoom(s1, base, len);
    var s2 := MapEntries(s1, entries, 0, 0).0;
    NothingCovered(s1);
    DirectMapFrom(s1, entries, 0, 0);
    DirectStepsWhole(s1, base, len, w);
    IdentityMapsExact(s2, (base + len) / PAGE_SIZE);
  }

  lemma DirectStepsWhole(s: Mem, base: nat, len: nat, w: VPage)
    requires AreaOk(base, len) && BootOk(s) && (forall u :: !HugeSlot(s.pages, s.root, u))
    requires WindowPage(w) < WINDOW_PAGES && (WindowPage(w) - w.i1) * PAGE_SIZE + SLOT_SIZE <= base + len
    requires !MapRange(s, DIRECT_MAP_BASE, 0, base + len, DIRECT_FLAGS, 0).failed
    ensures var s' := MapRange(s, DIRECT_MAP_BASE, 0, base + len, DIRECT_FLAGS, 0); HugeSlot(s'.pages, s'.root, w)
  {
    hide MapRange, TreeWalk, HugeSlot, WholeStep, BooksOk, TablesOk, Pow2, WindowPage, SlotFrame;
    AreaLimit(s, base, len);
    EntryPages(0, base + len);
    WholeDirectStep(base + len, w);
    MapRangeExact(s, DIRECT_MAP_BASE, 0, base + len, DIRECT_FLAGS, 0);
  }

  /** On every machine whose RAM starts at 2 MiB the three requests succeed: the firmware's first page is
      handed out but stays the firmware's; the page over the start of the direct map is handed out but
      stays page 0; and the page over its second slot turns the client's memory into a page table. */
  lemma LimitsAreReached(memory: Memory, bits: nat, len: nat, flags: nat)
    requires AreaOk(SLOT_SIZE, len) && 32 <= bits <= 52 && !Huge(flags)
    ensures var s := PagerInit(memory, bits, OneArea(SLOT_SIZE, len)).0;
            && s.heaps.user == USER_SPACE_BASE
            && (var (s1, virt) := Alloc(Jumped(s, FIRMWARE_BASE, flags), PAGE_SIZE, User, flags);
                && virt == FIRMWARE_BASE && !s1.failed
                && Translate(s1.pages, s1.root, virt) == Some(virt) != Some(VirtToPhys(s1.table, virt).1))
            && (var (s2, virt) := Alloc(Jumped(s, NON_CANONICAL, flags), PAGE_SIZE, User, flags);
                && virt == NON_CANONICAL && !s2.failed
                && Translate(s2.pages, s2.root, virt) == Some(0) != Some(VirtToPhys(s2.table, virt).1))
            && (var (s3, virt) := Alloc(Jumped(s, SECOND_SLOT, flags), PAGE_SIZE, User, flags);
                && virt == SECOND_SLOT && !s3.failed
                && TableAt(s3.pages, s3.root, Child(Root, 0)) == Some(VirtToPhys(s3.table, virt).1 / PAGE_SIZE)
                && !TablesOk(s3.pages, s3.root, s3.runs))
  {
    hide PagerInit, Alloc, TreeOk, Translate, TreeWalk, HugeSlot, VPageOf, VNum, Jumped, VirtToPhys, AllocPhys, Booted;
    hide WindowPage;
    var entries := OneArea(SLOT_SIZE, len);
    SmallMachineBoots(memory, bits, SLOT_SIZE, len);
    AliasOfDirectMap();
    AliasOfSecondSlot();
    DirectSlotIsWhole(memory, bits, SLOT_SIZE, len, VPageOf(NON_CANONICAL));
    DirectSlotIsWhole(memory, bits, SLOT_SIZE, len, VPageOf(SECOND_SLOT));
    FirmwareWindowIsHandedOut(memory, bits, entries, flags);
    DirectMapIsHandedOut(memory, bits, entries, flags);
    RootIsOverwritten(memory, bits, entries, flags);
  }
}
