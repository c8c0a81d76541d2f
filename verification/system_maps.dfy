/** The firmware's own maps against avmf_alloc: which requests break them, and what a request that runs
    into them gets. */
module SystemMaps {
  import opened Words
  import opened Physical
  import opened Regions
  import opened Paging
  import opened Addresses
  import opened MemoryState
  import opened Mapping
  import opened RangeMapping
  import opened Bookkeeping
  import opened PageMaps
  import opened AvmfRuns
  import opened AvmfSafety
  import opened AvmfTheorems
  import opened Boot

  // ----- any canonical request, after any run

  /** The firmware window is as pager_init left it. */
  ghost predicate WindowKept(s: Mem) {
    forall w :: FirmwarePage(w) ==>
                  && TreeWalk(s.pages, s.root, w) == Some(IdentityLeaf(w))
                  && HugeSlot(s.pages, s.root, w) == WholeFirmwarePage(w)
  }

  /** A positive request without wrap-around and bit 7, whose area is canonical; for the kernel, driver and
      sensitive heaps it always is. */
  predicate CanonicalRequest(s: Mem, size: nat, kind: AllocType, flags: nat) {
    Fits(s.heaps, size, kind) && !Huge(flags) && Canonical(s.heaps.Top(kind), Align4k(size))
  }

  /** A slot mapped whole that a canonical new area meets is the firmware's. */
  lemma MetSlotIsFirmware(s: Mem, s2: Mem, hd: Header, w: VPage)
    requires Inv(s) && Recorded(s, s2, hd) && Canonical(hd.virt, hd.size) && InArea(hd, w)
    ensures !DirectPage(w) && (HugeSlot(s.pages, s.root, w) ==> FirmwarePage(w))
  {
    hide Offset, HugeSlot, LedgerOk, TablesOk, OwnersOk, RegionsOk, FirmwarePage, DirectPage;
    assert s2.table.headers[|s.table.headers|] == hd;
    assert hd.size == RegionPages(hd) * PAGE_SIZE && hd.virt % PAGE_SIZE == 0;
    AreaIsInterval(hd.virt, RegionPages(hd), w);
    if HugeSlot(s.pages, s.root, w) && !SystemPage(w) {
      var g :| 0 <= g < |s.table.headers| && InRegion(s.table.headers[g], w);
      assert PtNode(w) == PtNode(w);
      assert s2.table.headers[g] == s.table.headers[g];
      RegionsApart(s2.heaps, s2.table.headers, g, |s.table.headers|, w);
    }
  }

  /** The slots of the firmware window start beyond the bitmap. */
  lemma FirmwareFrame(s: Mem, w: VPage)
    requires Sound(s) && WindowKept(s) && FirmwarePage(w) && HugeSlot(s.pages, s.root, w)
    ensures SlotFrame(s.pages, s.root, w) >= 0xF_F000
  {
    hide BooksOk, TreeOk, OwnersOk, HugeSlot, SlotFrame, VNum;
    WholeSlotWalk(s.pages, s.root, w);
    SlotBase(w);
  }

  lemma NoTableBeyondBitmap(s: Mem, frame: nat)
    requires BooksOk(s) && frame >= BITMAP_PAGES
    ensures Run(frame, 1, PageTable) !in s.runs
  {
    hide HeadersOk;
  }

  lemma CanonicalIsSafe(s: Mem, size: nat, kind: AllocType, flags: nat)
    requires Inv(s) && WindowKept(s) && CanonicalRequest(s, size, kind, flags)
    requires !Alloc(s, size, kind, flags).0.failed
    ensures AllocSafe(s, size, kind, flags)
  {
    hide Inv, Alloc, Recorded, NewHeader, AfterRecord, HugeSlot, SlotFrame, WholeStep, InArea, SetAside, Sound;
    hide RecordsOk, BooksOk, OwnersOk, WindowKept, Fits, Canonical, FirmwarePage, MapRange;
    InvParts(s);
    HeaderSize(s, size, kind, flags);
    AllocOutcome(s, size, kind, flags);
    KeptBooks(s, size, kind, flags);
    var s', hd := Alloc(s, size, kind, flags).0, NewHeader(s, size, kind, flags);
    forall w | Alloc(s, size, kind, flags).1 != 0 && LostIn(s, hd, w)
      ensures Run(SlotFrame(s.pages, s.root, w), 1, PageTable) !in s'.runs
    {
      MetSlotIsFirmware(s, AfterRecord(s, size, kind, flags), hd, w);
      FirmwareFrame(s, w);
      NoTableBeyondBitmap(s', SlotFrame(s.pages, s.root, w));
    }
  }

  lemma KeptBooks(s: Mem, size: nat, kind: AllocType, flags: nat)
    requires Inv(s) && Fits(s.heaps, size, kind) && !Alloc(s, size, kind, flags).0.failed
    ensures BooksOk(Alloc(s, size, kind, flags).0)
  {
    hide Alloc, BooksOk, OwnersOk, TablesOk, RegionsOk, AreasOk, HugeSlotsOk;
    AllocKeepsRecords(s, size, kind, flags);
  }

  /** After any run, a canonical request that succeeds gets a region that is mapped as recorded exactly if
      no page of it lies in the seven slots of the firmware window that are mapped whole, except in slots
      that pager_map_range sets anew. The direct map is kept either way. */
  lemma CanonicalRequestExactly(s: Mem, size: nat, kind: AllocType, flags: nat)
    requires Inv(s) && WindowKept(s) && CanonicalRequest(s, size, kind, flags)
    requires !Alloc(s, size, kind, flags).0.failed && Alloc(s, size, kind, flags).1 != 0
    ensures var s', hd := Alloc(s, size, kind, flags).0, NewHeader(s, size, kind, flags);
            && hd.virt == s.heaps.Top(kind) && hd.size == Align4k(size)
            && ((forall w :: InArea(hd, w) ==> Walk(s'.pages, s'.root, w) == Some(RecordedLeaf(hd, w)))
                <==> forall w :: InArea(hd, w) && WholeFirmwarePage(w) ==> WholeStep(hd.virt, hd.phys, hd.size, 0, w))
            && (forall w :: DirectPage(w) ==> Walk(s'.pages, s'.root, w) == Walk(s.pages, s.root, w))
  {
    hide Inv, Alloc, Recorded, NewHeader, AfterRecord, HugeSlot, TreeWalk, Walk, WholeStep, InArea, SetAside, Sound;
    hide Extends, BooksOk, OwnersOk, WindowKept, Fits, Canonical, FirmwarePage, DirectPage, WholeFirmwarePage;
    hide AllocSafe, RecordedLeaf, MapRange;
    InvParts(s);
    HeaderSize(s, size, kind, flags);
    CanonicalIsSafe(s, size, kind, flags);
    AllocEffect(s, size, kind, flags);
    AllocOutcome(s, size, kind, flags);
    var s', hd := Alloc(s, size, kind, flags).0, NewHeader(s, size, kind, flags);
    WalksFollowTrees(s);
    WalksFollowTrees(s');
    forall w | InArea(hd, w)
      ensures !DirectPage(w)
      ensures HugeSlot(s.pages, s.root, w) <==> WholeFirmwarePage(w)
      ensures HugeSlot(s.pages, s.root, w) ==> TreeWalk(s.pages, s.root, w) != Some(RecordedLeaf(hd, w))
    {
      MetSlotIsFirmware(s, AfterRecord(s, size, kind, flags), hd, w);
      FirmwareIsNoRam(s, AfterRecord(s, size, kind, flags), hd, w);
    }
  }

  /** What the window maps is no memory a header can record. */
  lemma FirmwareIsNoRam(s: Mem, s2: Mem, hd: Header, w: VPage)
    requires WindowKept(s) && Recorded(s, s2, hd) && InArea(hd, w)
    ensures WholeFirmwarePage(w) ==> FirmwarePage(w) && HugeSlot(s.pages, s.root, w)
    ensures FirmwarePage(w) ==> HugeSlot(s.pages, s.root, w) == WholeFirmwarePage(w)
    ensures FirmwarePage(w) ==> TreeWalk(s.pages, s.root, w) != Some(RecordedLeaf(hd, w))
  {
    hide BooksOk, HugeSlot, TreeWalk, Offset, VNum, Attrs;
  }

  /** The window is kept by every run of requests clear of it. */
  lemma WindowAfterRuns(memory: Memory, bits: nat, entries: seq<E820Entry>, ops: seq<Op>)
    requires |entries| <= MAX_RANGES && RangesOk(RamRanges(entries)) && MapOk(entries) && 32 <= bits <= 52
    requires RunOk(PagerInit(memory, bits, entries).0, ops)
    requires !RunOps(PagerInit(memory, bits, entries).0, ops).failed
    ensures var s := RunOps(PagerInit(memory, bits, entries).0, ops); Inv(s) && WindowKept(s)
  {
    hide PagerInit, Inv, RunOk, RunOps, RamRanges, RangesOk, Translate, TableRunsStay, Live, TreeWalk, HugeSlot, VNum;
    hide Covered, IdentityAddress;
    BootMapsMemory(memory, bits, entries);
    RunsKeepInv(PagerInit(memory, bits, entries).0, ops);
  }

  // ----- the direct map, wherever the area lies

  /** The direct map survives a request, none of whose lost entries hits a page table, exactly if every page
      of it that the new area aliases is lost to the new region, or is recorded at its own place. */
  lemma DirectMapExactly(s: Mem, size: nat, kind: AllocType, flags: nat, n: nat)
    requires Sound(s) && AllocSafe(s, size, kind, flags) && Covered(s, n)
    requires !Alloc(s, size, kind, flags).0.failed && Alloc(s, size, kind, flags).1 != 0
    ensures var s', hd := Alloc(s, size, kind, flags).0, NewHeader(s, size, kind, flags);
            Covered(s', n)
            <==> forall w :: InArea(hd, w) && WindowPage(w) < n ==>
                               || (HugeSlot(s.pages, s.root, w) && !WholeStep(hd.virt, hd.phys, hd.size, 0, w))
                               || RecordedLeaf(hd, w) == Leaf(WindowPage(w), Attrs(DIRECT_FLAGS))
  {
    hide Alloc, AllocSafe, NewHeader, Sound, TreeWalk, HugeSlot, WholeStep, InArea, RecordedLeaf, WindowPage, Attrs;
    hide Recorded, Extends;
    AllocEffect(s, size, kind, flags);
  }

  // ----- requests that run into the system's maps

  /** The guard of the user heap lets a request through that is far too long for physical memory. It fails,
      and the heap has moved: a client can put the next user allocation anywhere up to the direct map. */
  lemma UserHeapJumps(s: Mem, top: nat, flags: nat)
    requires BooksOk(s) && top <= DIRECT_MAP_BASE && top % PAGE_SIZE == 0
    requires s.heaps.user + BITMAP_PAGES * PAGE_SIZE < top
    ensures Alloc(s, top - s.heaps.user, User, flags) == (s.(heaps := s.heaps.(user := top)), 0)
  {
    var size := top - s.heaps.user;
    assert SpaceBase(User) <= s.heaps.Top(User) && s.heaps.Top(User) % PAGE_SIZE == 0;
    hide LedgerOk, HeapsOk, AllocPhys;
    assert RangesOk(s.phys.ranges);
    JumpSize(s.heaps.user, top);
    AllocPhysFirstFit(s.phys, size);
  }

  lemma JumpSize(user: nat, top: nat)
    requires user % PAGE_SIZE == 0 && top % PAGE_SIZE == 0 && top <= DIRECT_MAP_BASE
    requires user + BITMAP_PAGES * PAGE_SIZE < top
    ensures var size := top - user;
            Align4k(size) == size && size / PAGE_SIZE > BITMAP_PAGES && size + PAGE_SIZE <= TWO64
  {
  }

  lemma MovedHeap(s: Mem, top: nat)
    requires Sound(s) && s.heaps.user <= top <= DIRECT_MAP_BASE && top % PAGE_SIZE == 0
    ensures Sound(s.(heaps := s.heaps.(user := top)))
  {
    hide LedgerOk, TablesOk;
    var s' := s.(heaps := s.heaps.(user := top));
    forall t: AllocType
      ensures SpaceBase(t) <= s'.heaps.Top(t) <= SpaceEnd(t) && s'.heaps.Top(t) % PAGE_SIZE == 0
    {
      assert SpaceBase(t) <= s.heaps.Top(t) <= SpaceEnd(t) && s.heaps.Top(t) % PAGE_SIZE == 0;
    }
    forall i: Interval | Behind(s.heaps, i)
      ensures Behind(s'.heaps, i)
    {
      var t: AllocType :| t != Unknown && SpaceBase(t) <= i.start && i.start + i.size <= s.heaps.Top(t);
      assert s.heaps.Top(t) <= s'.heaps.Top(t);
    }
  }

  /** A one-page user request succeeds exactly if a page and a header are left. */
  lemma OnePageSucceeds(s: Mem, flags: nat)
    requires BooksOk(s) && 0 < s.heaps.user && s.heaps.user + PAGE_SIZE <= DIRECT_MAP_BASE
    ensures Fits(s.heaps, PAGE_SIZE, User)
    ensures Alloc(s, PAGE_SIZE, User, flags).1 != 0
            <==> AllocPhys(s.phys, PAGE_SIZE).1 != 0 && |s.table.headers| < STATIC_HEADERS
    ensures AllocVirt(s.heaps, PAGE_SIZE, User).1 == s.heaps.user
  {
    hide AllocPhys, MapRange;
    AlignOnePage();
  }

  /** A one-page request whose page lies in a slot mapped whole: the entry is written into the slot's
      first frame. */
  lemma OnePageLost(s: Mem, flags: nat)
    requires Sound(s) && !Huge(flags) && 0 < s.heaps.user && s.heaps.user + PAGE_SIZE <= DIRECT_MAP_BASE
    requires HugeSlot(s.pages, s.root, VPageOf(s.heaps.user)) && Alloc(s, PAGE_SIZE, User, flags).1 != 0
    ensures var s', v := Alloc(s, PAGE_SIZE, User, flags).0, VPageOf(s.heaps.user);
            var hd := NewHeader(s, PAGE_SIZE, User, flags);
            && Recorded(s, AfterRecord(s, PAGE_SIZE, User, flags), hd) && hd.virt == s.heaps.user
            && hd.size == PAGE_SIZE && hd.flags == flags
            && s' == AfterRecord(s, PAGE_SIZE, User, flags).(
                       pages := Store(s.pages, SlotFrame(s.pages, s.root, v), v.i1, SmallEntry(hd.phys, flags)))
  {
    hide Alloc, BooksOk, OwnersOk, TreeOk, NewHeader, AfterRecord, VPageOf, HugeSlot, SlotFrame, Store, Recorded;
    hide SetAside, MapPage, SmallEntry, Pow2;
    OnePageSucceeds(s, flags);
    AllocOutcome(s, PAGE_SIZE, User, flags);
    AlignOnePage();
    HeaderSize(s, PAGE_SIZE, User, flags);
    HeaderFlags(s, flags);
    var s2, hd := AfterRecord(s, PAGE_SIZE, User, flags), NewHeader(s, PAGE_SIZE, User, flags);
    RecordedPager(s, s2, hd);
    RecordedRangeOk(s, s2, hd);
    OneStep(s2, hd.virt, hd.phys, flags);
    RecordedPages(s, s2, hd);
    LostEntry(s2, hd.virt, hd.phys, flags);
  }

  lemma HeaderFlags(s: Mem, flags: nat)
    ensures NewHeader(s, PAGE_SIZE, User, flags).flags == flags
  {
  }

  lemma RecordedPages(s: Mem, s2: Mem, hd: Header)
    requires Recorded(s, s2, hd)
    ensures s2.pages == s.pages && s2.root == s.root
  {
  }

  lemma OneStep(s: Mem, virt: nat, phys: nat, flags: nat)
    requires RangeOk(s, virt, phys, PAGE_SIZE, flags)
    ensures MapRange(s, virt, phys, PAGE_SIZE, flags, 0) == MapPage(s, virt, phys, flags) && phys < Pow2(s.physBits)
  {
    hide MapPage;
    StepAddresses(s, virt, phys, PAGE_SIZE, flags, 0);
    assert MapRange(MapPage(s, virt, phys, flags), virt, phys, PAGE_SIZE, flags, PAGE_SIZE)
        == MapPage(s, virt, phys, flags);
  }
}
