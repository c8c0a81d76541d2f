/** Concrete requests, from any booted state, that break the system's maps or get a region that is not
    mapped as recorded. */
module AllocLimits {
  import opened Words
  import opened Physical
  import opened Regions
  import opened Paging
  import opened Addresses
  import opened MemoryState
  import opened Mapping
  import opened RangeMapping
  import opened Bookkeeping
  import opened PageMaps
  import opened AvmfRuns
  import opened AvmfSafety
  import opened Boot
  import opened SystemMaps
  import opened LostEntries

  /** pager_init has run on a proper memory map and found memory for its tables. */
  ghost predicate Booted(memory: Memory, bits: nat, entries: seq<E820Entry>) {
    && |entries| <= MAX_RANGES && RangesOk(RamRanges(entries)) && MapOk(entries) && 32 <= bits <= 52
    && !PagerInit(memory, bits, entries).0.failed
  }

  /** The state after a user request that moves the user heap to `top`. */
  function Jumped(s: Mem, top: nat, flags: nat): Mem
    requires s.heaps.user <= top
  {
    Alloc(s, top - s.heaps.user, User, flags).0
  }

  /** After a jump of the user heap a one-page request succeeds as it would have before. */
  lemma AfterJump(s: Mem, top: nat, flags: nat)
    requires Sound(s) && top % PAGE_SIZE == 0 && top + PAGE_SIZE <= DIRECT_MAP_BASE
    requires s.heaps.user + BITMAP_PAGES * PAGE_SIZE < top
    ensures var s1 := Jumped(s, top, flags);
            && Alloc(s, top - s.heaps.user, User, flags).1 == 0
            && s1 == s.(heaps := s.heaps.(user := top)) && Sound(s1)
            && (Alloc(s1, PAGE_SIZE, User, flags).1 != 0
                <==> AllocPhys(s.phys, PAGE_SIZE).1 != 0 && |s.table.headers| < STATIC_HEADERS)
  {
    UserHeapJumps(s, top, flags);
    MovedHeap(s, top);
    hide Alloc, AllocPhys, BooksOk, TablesOk, OwnersOk;
    OnePageSucceeds(Jumped(s, top, flags), flags);
  }

  /** A lost page, as the processor sees it: nothing has changed, whatever the new header says. */
  lemma LostPageStays(s: Mem, flags: nat)
    requires Sound(s) && !Huge(flags) && 0 < s.heaps.user && s.heaps.user + PAGE_SIZE <= DIRECT_MAP_BASE
    requires HugeSlot(s.pages, s.root, VPageOf(s.heaps.user)) && Alloc(s, PAGE_SIZE, User, flags).1 != 0
    requires !IsTable(s.pages, s.root, SlotFrame(s.pages, s.root, VPageOf(s.heaps.user)))
    ensures var (s', virt) := Alloc(s, PAGE_SIZE, User, flags);
            && !s'.failed && virt == s.heaps.user
            && (forall w :: TreeWalk(s'.pages, s'.root, w) == TreeWalk(s.pages, s.root, w))
            && TreeOk(s'.pages, s'.root) && s'.root == s.root
            && VirtToPhys(s'.table, virt).1 == NewHeader(s, PAGE_SIZE, User, flags).phys
            && 0 < VirtToPhys(s'.table, virt).1 < BITMAP_PAGES * PAGE_SIZE
  {
    hide Alloc, TreeOk, OwnersOk, NewHeader, AfterRecord, VPageOf, HugeSlot, SlotFrame, Store, TreeWalk, IsTable;
    hide LedgerOk, HeadersOk, VirtToPhys;
    OnePageLost(s, flags);
    AllocOutcome(s, PAGE_SIZE, User, flags);
    var s2, hd := AfterRecord(s, PAGE_SIZE, User, flags), NewHeader(s, PAGE_SIZE, User, flags);
    var v := VPageOf(s.heaps.user);
    var frame, e := SlotFrame(s.pages, s.root, v), SmallEntry(hd.phys, flags);
    StoreOutsideTables(s.pages, s.root, frame, v.i1, e);
    forall w
      ensures TreeWalk(Store(s.pages, frame, v.i1, e), s.root, w) == TreeWalk(s.pages, s.root, w)
    {
      StoreOutsideWalk(s.pages, s.root, frame, v.i1, e, w);
    }
    HeaderTranslates(s2.heaps, s2.table, |s.table.headers|, hd.virt);
  }

  /** The user heap is moved to the firmware window; the next page is recorded in RAM, while the processor
      still goes to the firmware. */
  lemma FirmwareWindowIsHandedOut(memory: Memory, bits: nat, entries: seq<E820Entry>, flags: nat)
    requires Booted(memory, bits, entries) && !Huge(flags)
    ensures var s := PagerInit(memory, bits, entries).0;
            s.heaps.user == USER_SPACE_BASE
            && var s1 := Jumped(s, FIRMWARE_BASE, flags);
               var (s2, virt) := Alloc(s1, PAGE_SIZE, User, flags);
               && Alloc(s, FIRMWARE_BASE - USER_SPACE_BASE, User, flags).1 == 0
               && (virt != 0 <==> AllocPhys(s.phys, PAGE_SIZE).1 != 0 && |s.table.headers| < STATIC_HEADERS)
               && (virt != 0 ==>
                     && virt == FIRMWARE_BASE && !s2.failed
                     && Translate(s2.pages, s2.root, virt) == Some(virt)
                     && VirtToPhys(s2.table, virt).1 < BITMAP_PAGES * PAGE_SIZE < virt)
  {
    hide PagerInit, Alloc, TreeOk, Translate, TreeWalk, HugeSlot, VPageOf, VNum, Covered, Jumped, Inv, SlotFrame;
    hide VirtToPhys, AllocPhys, BooksOk, IdentityAddress, IsTable, RamRanges, MapOk, Live, Mappable;
    BootMapsMemory(memory, bits, entries);
    var s := PagerInit(memory, bits, entries).0;
    InvParts(s);
    AfterJump(s, FIRMWARE_BASE, flags);
    var s1 := Jumped(s, FIRMWARE_BASE, flags);
    var v := VPageOf(FIRMWARE_BASE);
    FirmwareNumber();
    if Alloc(s1, PAGE_SIZE, User, flags).1 != 0 {
      var s2 := Alloc(s1, PAGE_SIZE, User, flags).0;
      WholeFrameIsNoTable(s1, v, 0xF_F000);
      LostPageStays(s1, flags);
      TranslateByTree(s2, FIRMWARE_BASE);
      TranslateByTree(s, FIRMWARE_BASE);
      assert IdentityAddress(FIRMWARE_BASE) by {
        FirmwareAddress();
      }
    }
  }

  lemma FirmwareAddress()
    ensures IdentityAddress(FIRMWARE_BASE)
  {
  }

  lemma FirmwareNumber()
    ensures var v := VPageOf(FIRMWARE_BASE); VNum(v) == 0xF_F000 && v.i1 == 0
  {
  }

  lemma TranslateByTree(s: Mem, a: nat)
    requires TreeOk(s.pages, s.root)
    ensures Translate(s.pages, s.root, a)
            == match TreeWalk(s.pages, s.root, VPageOf(a))
               case None => None
               case Some(leaf) => Some(leaf.frame * PAGE_SIZE + a % PAGE_SIZE)
  {
    WalkFollowsTree(s.pages, s.root, VPageOf(a));
    hide TreeOk, Walk, TreeWalk, VPageOf;
  }

  /** A slot whose first page goes to page 0, or to a page beyond the bitmap, has no table in its first
      frame. */
  lemma WholeFrameIsNoTable(s: Mem, v: VPage, frame: nat)
    requires Sound(s) && HugeSlot(s.pages, s.root, v) && v.i1 == 0 && (frame == 0 || frame >= BITMAP_PAGES)
    requires TreeWalk(s.pages, s.root, v).Some? && TreeWalk(s.pages, s.root, v).value.frame == frame
    ensures SlotFrame(s.pages, s.root, v) == frame && !IsTable(s.pages, s.root, frame)
  {
    WholeSlotWalk(s.pages, s.root, v);
    hide TreeOk, TreeWalk, HugeSlot, SlotFrame, OwnersOk, HeadersOk;
    forall q
      ensures TableAt(s.pages, s.root, q) != Some(frame)
    {
      var t := TableAt(s.pages, s.root, q);
      assert t.Some? ==> Run(t.value, 1, PageTable) in s.runs;
    }
  }

  const NON_CANONICAL: nat := LOW_HALF_END

  lemma AliasOfDirectMap()
    ensures VPageOf(NON_CANONICAL) == VPageOf(DIRECT_MAP_BASE)
    ensures VPageOf(NON_CANONICAL).i1 == 0 && WindowPage(VPageOf(NON_CANONICAL)) == 0
  {
    hide VPageOf, Offset;
    DirectPageAt(0);
    NonCanonicalIndices();
  }

  lemma NonCanonicalIndices()
    ensures VPageOf(NON_CANONICAL) == VPage(256, 0, 0, 0) == VPageOf(DIRECT_MAP_BASE)
  {
  }

  /** The user heap is moved past the end of the lower half; the next page shares its table entries with the
      start of the direct map (its own address is not canonical, the direct map's is). If that slot is mapped
      whole the new region is not mapped as recorded, else the direct map loses its first page to it. */
  lemma DirectMapIsHandedOut(memory: Memory, bits: nat, entries: seq<E820Entry>, flags: nat)
    requires Booted(memory, bits, entries) && !Huge(flags) && PagerInit(memory, bits, entries).1 > 0
    ensures var s := PagerInit(memory, bits, entries).0;
            s.heaps.user == USER_SPACE_BASE
            && var s1 := Jumped(s, NON_CANONICAL, flags);
               var (s2, virt) := Alloc(s1, PAGE_SIZE, User, flags);
               && Alloc(s, NON_CANONICAL - USER_SPACE_BASE, User, flags).1 == 0
               && (virt != 0 <==> AllocPhys(s.phys, PAGE_SIZE).1 != 0 && |s.table.headers| < STATIC_HEADERS)
               && (virt != 0 && HugeSlot(s.pages, s.root, VPageOf(DIRECT_MAP_BASE)) ==> !s2.failed)
               && (virt != 0 && !s2.failed ==>
                     && virt == NON_CANONICAL
                     && Translate(s2.pages, s2.root, virt) == Translate(s2.pages, s2.root, DIRECT_MAP_BASE)
                     && var phys := VirtToPhys(s2.table, virt).1;
                        && phys > 0
                        && Translate(s2.pages, s2.root, DIRECT_MAP_BASE)
                           == Some(if HugeSlot(s.pages, s.root, VPageOf(DIRECT_MAP_BASE)) then 0 else phys))
  {
    hide PagerInit, Alloc, TreeOk, Translate, TreeWalk, HugeSlot, VPageOf, VNum, Jumped, Inv, SlotFrame;
    hide VirtToPhys, AllocPhys, BooksOk, IdentityAddress, IsTable, RamRanges, MapOk, Live, Mappable, WindowPage, Attrs;
    hide IdentityMapped;
    BootMapsMemory(memory, bits, entries);
    var (s, end) := PagerInit(memory, bits, entries);
    InvParts(s);
    AfterJump(s, NON_CANONICAL, flags);
    AliasOfDirectMap();
    var s1, v := Jumped(s, NON_CANONICAL, flags), VPageOf(NON_CANONICAL);
    var (s2, virt) := Alloc(s1, PAGE_SIZE, User, flags);
    assert end / PAGE_SIZE > 0;
    if virt != 0 && HugeSlot(s.pages, s.root, v) {
      WholeFrameIsNoTable(s1, v, 0);
      LostPageStays(s1, flags);
    }
    if virt != 0 && !s2.failed {
      if !HugeSlot(s.pages, s.root, v) {
        OnePageMapped(s1, flags);
      }
      TranslateByTree(s2, virt);
      TranslateByTree(s2, DIRECT_MAP_BASE);
    }
  }

  /** A one-page request whose slot is not mapped whole gets its page. */
  lemma OnePageMapped(s: Mem, flags: nat)
    requires Sound(s) && !Huge(flags) && 0 < s.heaps.user && s.heaps.user + PAGE_SIZE <= DIRECT_MAP_BASE
    requires !HugeSlot(s.pages, s.root, VPageOf(s.heaps.user)) && Alloc(s, PAGE_SIZE, User, flags).1 != 0
    requires !Alloc(s, PAGE_SIZE, User, flags).0.failed
    ensures var (s', virt) := Alloc(s, PAGE_SIZE, User, flags);
            var phys := NewHeader(s, PAGE_SIZE, User, flags).phys;
            && virt == s.heaps.user && phys > 0 && phys % PAGE_SIZE == 0 && Sound(s')
            && VirtToPhys(s'.table, virt).1 == phys
            && TreeWalk(s'.pages, s'.root, VPageOf(virt)) == Some(Leaf(phys / PAGE_SIZE, Attrs(flags)))
  {
    hide Alloc, AfterRecord, VPageOf, HugeSlot, SlotFrame, TreeWalk, BooksOk, TablesOk, OwnersOk, Offset, WholeStep;
    hide NewHeader, Extends, Attrs, VirtToPhys;
    OnePageSucceeds(s, flags);
    AlignOnePage();
    HeaderSize(s, PAGE_SIZE, User, flags);
    AllocOutcome(s, PAGE_SIZE, User, flags);
    var hd := NewHeader(s, PAGE_SIZE, User, flags);
    var v := VPageOf(hd.virt);
    OnlyPage(s, AfterRecord(s, PAGE_SIZE, User, flags), hd);
    assert AllocSafe(s, PAGE_SIZE, User, flags);
    AllocEffect(s, PAGE_SIZE, User, flags);
    var s' := Alloc(s, PAGE_SIZE, User, flags).0;
    SoundHeaders(s');
    HeaderTranslates(s'.heaps, s'.table, |s.table.headers|, hd.virt);
    assert TreeWalk(s'.pages, s'.root, v) == Some(RecordedLeaf(hd, v));
  }

  lemma SoundHeaders(s: Mem)
    requires Sound(s)
    ensures HeadersOk(s.heaps, s.table.headers) && CacheOk(s.table)
  {
  }

  /** An area of one page is the page of its address. */
  lemma OnlyPage(s: Mem, s2: Mem, hd: Header)
    requires Recorded(s, s2, hd) && hd.size == PAGE_SIZE
    ensures Offset(hd.virt, VPageOf(hd.virt)) == 0 && forall w :: InArea(hd, w) <==> w == VPageOf(hd.virt)
  {
    hide Offset, VPageOf, LedgerOk, Behind;
    assert s2.table.headers[|s.table.headers|] == hd;
    HeaderBounds(s2.heaps, s2.table.headers, |s.table.headers|);
    assert PageAddress(hd.virt, 0) == hd.virt;
    forall w
      ensures w == VPageOf(hd.virt) <==> Offset(hd.virt, w) == 0
    {
      OffsetExact(hd.virt, 0, w);
    }
  }

  /** The page after the first slot of the lower half's alias of the direct map. */
  const SECOND_SLOT: nat := LOW_HALF_END + SLOT_SIZE

  lemma AliasOfSecondSlot()
    ensures VPageOf(SECOND_SLOT) == VPageOf(DIRECT_MAP_BASE + SLOT_SIZE)
    ensures VPageOf(SECOND_SLOT).i1 == 0 && WindowPage(VPageOf(SECOND_SLOT)) == SLOT_PAGES
  {
    hide VPageOf, Offset;
    DirectPageAt(SLOT_SIZE);
    SecondSlotIndices();
  }

  lemma SecondSlotIndices()
    ensures VPageOf(SECOND_SLOT) == VPage(256, 0, 1, 0) == VPageOf(DIRECT_MAP_BASE + SLOT_SIZE)
  {
  }

  /** Where RAM starts at 2 MiB the first table is page 512, and the direct map's second slot starts there.
      A page of the user heap that shares its walk with that slot is written into the first table: the
      client's page becomes a table of the processor. The direct map uses other entries of the first table
      and is kept. */
  lemma RootIsOverwritten(memory: Memory, bits: nat, entries: seq<E820Entry>, flags: nat)
    requires Booted(memory, bits, entries) && !Huge(flags) && PagerInit(memory, bits, entries).1 > SLOT_SIZE
    requires var s := PagerInit(memory, bits, entries).0;
             s.root == SLOT_PAGES && HugeSlot(s.pages, s.root, VPageOf(DIRECT_MAP_BASE + SLOT_SIZE))
    ensures var s := PagerInit(memory, bits, entries).0;
            s.heaps.user == USER_SPACE_BASE
            && var (s2, virt) := Alloc(Jumped(s, SECOND_SLOT, flags), PAGE_SIZE, User, flags);
               && (virt != 0 <==> AllocPhys(s.phys, PAGE_SIZE).1 != 0 && |s.table.headers| < STATIC_HEADERS)
               && (virt != 0 ==>
                     && virt == SECOND_SLOT && !s2.failed
                     && TableAt(s2.pages, s2.root, Child(Root, 0)) == Some(VirtToPhys(s2.table, virt).1 / PAGE_SIZE)
                     && !TablesOk(s2.pages, s2.root, s2.runs)
                     && forall a: nat :: a < PagerInit(memory, bits, entries).1 ==>
                                           Translate(s2.pages, s2.root, DIRECT_MAP_BASE + a) == Some(a))
  {
    hide PagerInit, Alloc, TreeOk, TreeWalk, HugeSlot, VPageOf, VNum, Jumped, Inv, SlotFrame, Translate;
    hide VirtToPhys, AllocPhys, BooksOk, IdentityAddress, IsTable, RamRanges, MapOk, Live, Mappable, WindowPage, Attrs;
    hide IdentityMapped;
    BootMapsMemory(memory, bits, entries);
    var (s, end) := PagerInit(memory, bits, entries);
    InvParts(s);
    AfterJump(s, SECOND_SLOT, flags);
    AliasOfSecondSlot();
    var s1, v := Jumped(s, SECOND_SLOT, flags), VPageOf(SECOND_SLOT);
    if Alloc(s1, PAGE_SIZE, User, flags).1 != 0 {
      assert end / PAGE_SIZE > SLOT_PAGES;
      WholeSlotWalk(s.pages, s.root, v);
      OverwrittenRoot(s1, flags);
      var s2 := Alloc(s1, PAGE_SIZE, User, flags).0;
      forall a: nat | a < end
        ensures Translate(s2.pages, s2.root, DIRECT_MAP_BASE + a) == Some(a)
      {
        assert Translate(s.pages, s.root, DIRECT_MAP_BASE + a) == Some(a);
        UpperHalfIndex(a);
        SameTranslate(s, s2, DIRECT_MAP_BASE + a);
      }
    }
  }

  lemma UpperHalfIndex(a: nat)
    requires a < WINDOW_SIZE
    ensures VPageOf(DIRECT_MAP_BASE + a).i4 >= 256
  {
    assert (DIRECT_MAP_BASE + a) / 0x80_0000_0000 == 0x1FF_FF00 + a / 0x80_0000_0000;
  }

  lemma SameTranslate(s: Mem, s': Mem, a: nat)
    requires Walk(s'.pages, s'.root, VPageOf(a)) == Walk(s.pages, s.root, VPageOf(a))
    ensures Translate(s'.pages, s'.root, a) == Translate(s.pages, s.root, a)
  {
    hide Walk, VPageOf;
  }

  lemma OverwrittenRoot(s: Mem, flags: nat)
    requires Sound(s) && !Huge(flags) && 0 < s.heaps.user && s.heaps.user + PAGE_SIZE <= DIRECT_MAP_BASE
    requires HugeSlot(s.pages, s.root, VPageOf(s.heaps.user)) && Alloc(s, PAGE_SIZE, User, flags).1 != 0
    requires SlotFrame(s.pages, s.root, VPageOf(s.heaps.user)) == s.root && VPageOf(s.heaps.user).i1 == 0
    ensures var (s', virt) := Alloc(s, PAGE_SIZE, User, flags);
            && virt == s.heaps.user && !s'.failed
            && TableAt(s'.pages, s'.root, Child(Root, 0)) == Some(VirtToPhys(s'.table, virt).1 / PAGE_SIZE)
            && !TablesOk(s'.pages, s'.root, s'.runs)
            && forall w: VPage :: w.i4 != 0 ==> Walk(s'.pages, s'.root, w) == Walk(s.pages, s.root, w)
  {
    hide Alloc, TreeOk, OwnersOk, NewHeader, AfterRecord, VPageOf, HugeSlot, SlotFrame, Store, LedgerOk, HeadersOk;
    hide VirtToPhys, SmallEntry;
    OnePageLost(s, flags);
    AllocOutcome(s, PAGE_SIZE, User, flags);
    var s2, hd := AfterRecord(s, PAGE_SIZE, User, flags), NewHeader(s, PAGE_SIZE, User, flags);
    var s' := Alloc(s, PAGE_SIZE, User, flags).0;
    HeaderTranslates(s2.heaps, s2.table, |s.table.headers|, hd.virt);
    SmallEntryFields(hd.phys, flags);
    assert TableAt(s.pages, s.root, Root) == Some(s.root);
    OverwrittenTable(s.pages, s.root, Root, 0, SmallEntry(hd.phys, flags));
    ClientIsNoTable(s2, |s.runs|);
    BitmapFits(hd);
    hide Walk;
    forall w: VPage | w.i4 != 0
      ensures Walk(s'.pages, s'.root, w) == Walk(s.pages, s.root, w)
    {
      EntryWalk(s.pages, s.root, Root, 0, hd.phys, flags, w);
    }
  }

  lemma BitmapFits(hd: Header)
    requires hd.phys + hd.size <= BITMAP_PAGES * PAGE_SIZE
    ensures hd.phys < ENTRY_LIMIT
  {
  }

  /** The page of a client's run of one page is no table's run. */
  lemma ClientIsNoTable(s: Mem, k: nat)
    requires BooksOk(s) && k < |s.runs| && s.runs[k].owner.Client?
    ensures Run(s.runs[k].start, 1, PageTable) !in s.runs
  {
    hide HeadersOk;
    forall i | 0 <= i < |s.runs|
      ensures s.runs[i] != Run(s.runs[k].start, 1, PageTable)
    {
      assert i < k ==> s.runs[i].Apart(s.runs[k]);
      assert k < i ==> s.runs[k].Apart(s.runs[i]);
    }
  }
}
