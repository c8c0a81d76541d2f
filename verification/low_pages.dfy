/** The firmware's identity-mapped pages over every run: which allocations take them away. */
module LowPages {
  import opened Words
  import opened Physical
  import opened Regions
  import opened Paging
  import opened Addresses
  import opened MemoryState
  import opened Mapping
  import opened RangeMapping
  import opened Unmapping
  import opened Bookkeeping
  import opened PageMaps
  import opened AvmfRuns
  import opened AvmfSafety
  import opened AvmfTheorems
  import opened Boot
  import opened SystemMaps
  import opened AllocLimits

  /** The operation frees an address some header covers, and its one unmap reaches page w. */
  ghost predicate FreesPage(s: Mem, op: Op, w: VPage) {
    op.DoFree? && HasHeader(s, op.virt) && Unmaps(s, op.virt, w)
  }

  /** Some free of the run reaches page w. */
  ghost predicate Freed(s: Mem, ops: seq<Op>, w: VPage)
    decreases |ops|
  {
    ops != [] && (FreesPage(s, ops[0], w) || Freed(Step(s, ops[0]), ops[1..], w))
  }

  /** Page w lies in an area recorded in headers from..: a page of the lower half lies in client areas
      only. */
  ghost predicate TakenFrom(headers: seq<Header>, from: nat, w: VPage) {
    exists g :: from <= g < |headers| && InArea(headers[g], w)
  }

  predicate LowerHalf(w: VPage) { VNum(w) < 0x8_0000_0000 }

  lemma SensitiveIsHigh(s: Mem, g: nat, w: VPage)
    requires Inv(s) && g < |s.table.headers| && s.table.headers[g].virt >= SENSITIVE_SPACE_BASE && LowerHalf(w)
    ensures !InArea(s.table.headers[g], w)
  {
    hide Offset, VNum, LedgerOk, TablesOk, OwnersOk, RegionsOk, HugeSlotsOk, FirstNum;
    var hd := s.table.headers[g];
    assert hd.size == RegionPages(hd) * PAGE_SIZE && hd.virt % PAGE_SIZE == 0;
    AreaIsInterval(hd.virt, RegionPages(hd), w);
    FirstNumValue(hd.virt, RegionPages(hd));
    HeaderBounds(s.heaps, s.table.headers, g);
  }

  /** One allocation, seen from a page of the lower half. */
  lemma AllocHistory(s: Mem, size: nat, kind: AllocType, flags: nat, w: VPage)
    requires Inv(s) && AllocRequestOk(s, size, kind, flags) && LowerHalf(w)
    requires !Alloc(s, size, kind, flags).0.failed
    ensures var s', from := Alloc(s, size, kind, flags).0, |s.table.headers|;
            && s.table.headers <= s'.table.headers
            && (forall g :: from <= g < |s'.table.headers| && InArea(s'.table.headers[g], w) ==>
                              TreeWalk(s'.pages, s'.root, w) == Some(RecordedLeaf(s'.table.headers[g], w)))
            && (!TakenFrom(s'.table.headers, from, w) ==>
                  TreeWalk(s'.pages, s'.root, w) == TreeWalk(s.pages, s.root, w))
  {
    hide Inv, Alloc, NewHeader, AfterRecord, HugeSlot, TreeWalk, WholeStep, InArea, RecordedLeaf, VNum, ClearOfSystem;
    hide AllocSafe, Sound, SystemPage, MapsHeader, Recorded, Extends, SetAside, Live;
    AllocKeepsInv(s, size, kind, flags);
    ClearRequestIsSafe(s, size, kind, flags);
    InvParts(s);
    AllocEffect(s, size, kind, flags);
    var (s', virt) := Alloc(s, size, kind, flags);
    var from, s2, hd := |s.table.headers|, AfterRecord(s, size, kind, flags), NewHeader(s, size, kind, flags);
    if virt == 0 {
      SetAsideRuns(s, s');
    } else {
      HeaderSize(s, size, kind, flags);
      AllocOutcome(s, size, kind, flags);
      NewRegionIsFree(s, s2, hd);
      NoneLost(s, s', hd, w);
      forall g | from < g < |s'.table.headers|
        ensures !InArea(s'.table.headers[g], w)
      {
        ExtendedHeader(s, s2, s', hd, g);
        SensitiveIsHigh(s', g, w);
      }
    }
  }

  lemma NoneLost(s: Mem, s': Mem, hd: Header, w: VPage)
    requires MapsHeader(s, s', hd) && (InArea(hd, w) ==> !HugeSlot(s.pages, s.root, w))
    ensures TreeWalk(s'.pages, s'.root, w)
            == if InArea(hd, w) then Some(RecordedLeaf(hd, w)) else TreeWalk(s.pages, s.root, w)
  {
    hide TreeWalk, HugeSlot, InArea, RecordedLeaf, WholeStep;
  }

  /** Headers past the new one are those of page tables. */
  lemma ExtendedHeader(s: Mem, s2: Mem, s': Mem, hd: Header, g: nat)
    requires Recorded(s, s2, hd) && Extends(s2, s') && |s.table.headers| < g < |s'.table.headers|
    ensures s'.table.headers[g].virt >= SENSITIVE_SPACE_BASE
  {
    hide BooksOk, Behind;
  }

  /** One operation, seen from a page of the lower half. */
  lemma StepHistory(s: Mem, op: Op, w: VPage)
    requires Inv(s) && OpOk(s, op) && !Step(s, op).failed && LowerHalf(w)
    ensures var s', from := Step(s, op), |s.table.headers|;
            && Inv(s') && s.table.headers <= s'.table.headers
            && (forall g :: from <= g < |s'.table.headers| && InArea(s'.table.headers[g], w) ==>
                              !op.DoFree?
                              && TreeWalk(s'.pages, s'.root, w) == Some(RecordedLeaf(s'.table.headers[g], w)))
            && (!TakenFrom(s'.table.headers, from, w) ==>
                  TreeWalk(s'.pages, s'.root, w)
                  == if FreesPage(s, op, w) then None else TreeWalk(s.pages, s.root, w))
            && (FreesPage(s, op, w) ==> TakenFrom(s.table.headers, 0, w))
  {
    hide Inv, Alloc, Free, TreeWalk, InArea, RecordedLeaf, VNum, Unmaps, AllocRequestOk, FreeRequestOk, VirtToPhys;
    hide Live, SystemPage, Spares;
    StepKeepsInv(s, op);
    match op {
      case DoAlloc(size, kind, flags) => AllocHistory(s, size, kind, flags, w);
      case DoFree(virt) =>
        InvParts(s);
        FreeEffect(s, virt);
        if FreesPage(s, op, w) {
          var h :| 0 <= h < |s.table.headers| && s.table.headers[h].Covers(virt);
          UnmappedIsInRegion(s, virt, h, w);
        }
      case DoTranslate(virt) =>
    }
  }

  /** A page of the lower half after a run: where the area that took it says, or as before, and nowhere
      once a free has reached it. No page lies in two areas. */
  lemma {:induction false} PageHistory(s: Mem, ops: seq<Op>, w: VPage)
    requires Inv(s) && RunOk(s, ops) && !RunOps(s, ops).failed && LowerHalf(w)
    ensures var s', from := RunOps(s, ops), |s.table.headers|;
            && Inv(s') && s.table.headers <= s'.table.headers
            && (forall g :: from <= g < |s'.table.headers| && InArea(s'.table.headers[g], w) ==>
                              TreeWalk(s'.pages, s'.root, w)
                              == if Freed(s, ops, w) then None else Some(RecordedLeaf(s'.table.headers[g], w)))
            && (!TakenFrom(s'.table.headers, from, w) ==>
                  TreeWalk(s'.pages, s'.root, w)
                  == if Freed(s, ops, w) then None else TreeWalk(s.pages, s.root, w))
            && (Freed(s, ops, w) ==> TakenFrom(s'.table.headers, 0, w))
    decreases |ops|
  {
    hide Inv, Step, OpOk, TreeWalk, InArea, RecordedLeaf, VNum, FreesPage, LowerHalf;
    if ops != [] {
      var s1, s', from := Step(s, ops[0]), RunOps(s, ops), |s.table.headers|;
      StepHistory(s, ops[0], w);
      PageHistory(s1, ops[1..], w);
      forall i, j | 0 <= i < j < |s'.table.headers|
        ensures !(InArea(s'.table.headers[i], w) && InArea(s'.table.headers[j], w))
      {
        if InArea(s'.table.headers[i], w) && InArea(s'.table.headers[j], w) {
          HeadersApart(s', i, j, w);
        }
      }
      HistoryTwice(s, ops, w);
    }
  }

  ghost predicate OneArea(headers: seq<Header>, w: VPage) {
    forall i, j :: 0 <= i < j < |headers| ==> !(InArea(headers[i], w) && InArea(headers[j], w))
  }

  /** The two parts of a run together. */
  lemma HistoryTwice(s: Mem, ops: seq<Op>, w: VPage)
    requires ops != []
    requires var s1, s', from := Step(s, ops[0]), RunOps(s, ops), |s.table.headers|;
             var mid := |s1.table.headers|;
             && s.table.headers <= s1.table.headers <= s'.table.headers
             && OneArea(s'.table.headers, w)
             && (forall g :: from <= g < mid && InArea(s1.table.headers[g], w) ==>
                               !ops[0].DoFree?
                               && TreeWalk(s1.pages, s1.root, w) == Some(RecordedLeaf(s1.table.headers[g], w)))
             && (!TakenFrom(s1.table.headers, from, w) ==>
                   TreeWalk(s1.pages, s1.root, w)
                   == if FreesPage(s, ops[0], w) then None else TreeWalk(s.pages, s.root, w))
             && (FreesPage(s, ops[0], w) ==> TakenFrom(s.table.headers, 0, w))
             && (forall g :: mid <= g < |s'.table.headers| && InArea(s'.table.headers[g], w) ==>
                               TreeWalk(s'.pages, s'.root, w)
                               == if Freed(s1, ops[1..], w) then None
                                  else Some(RecordedLeaf(s'.table.headers[g], w)))
             && (!TakenFrom(s'.table.headers, mid, w) ==>
                   TreeWalk(s'.pages, s'.root, w)
                   == if Freed(s1, ops[1..], w) then None else TreeWalk(s1.pages, s1.root, w))
             && (Freed(s1, ops[1..], w) ==> TakenFrom(s'.table.headers, 0, w))
    ensures var s', from := RunOps(s, ops), |s.table.headers|;
            && (forall g :: from <= g < |s'.table.headers| && InArea(s'.table.headers[g], w) ==>
                              TreeWalk(s'.pages, s'.root, w)
                              == if Freed(s, ops, w) then None else Some(RecordedLeaf(s'.table.headers[g], w)))
            && (!TakenFrom(s'.table.headers, from, w) ==>
                  TreeWalk(s'.pages, s'.root, w)
                  == if Freed(s, ops, w) then None else TreeWalk(s.pages, s.root, w))
            && (Freed(s, ops, w) ==> TakenFrom(s'.table.headers, 0, w))
  {
    hide Step, TreeWalk, InArea, RecordedLeaf, RunOps;
    var s1, s', from, mid := Step(s, ops[0]), RunOps(s, ops), |s.table.headers|, |Step(s, ops[0]).table.headers|;
    assert forall g :: 0 <= g < from ==> s'.table.headers[g] == s.table.headers[g];
    assert forall g :: 0 <= g < mid ==> s'.table.headers[g] == s1.table.headers[g];
    assert FreesPage(s, ops[0], w) ==> ops[0].DoFree?;
  }

  /** An area of the lower half records a page at its own place exactly if its memory is at its own
      addresses. */
  lemma OwnPlaceExactly(s: Mem, g: nat, w: VPage)
    requires Inv(s) && g < |s.table.headers| && InArea(s.table.headers[g], w) && LowerHalf(w)
    ensures var hd := s.table.headers[g];
            RecordedLeaf(hd, w) == IdentityLeaf(w)
            <==> hd.phys == hd.virt && Attrs(hd.flags) == Attrs(LINK_FLAGS)
  {
    hide VNum, LedgerOk, TablesOk, OwnersOk, RegionsOk, HugeSlotsOk, Attrs;
    var hd := s.table.headers[g];
    assert hd.size == RegionPages(hd) * PAGE_SIZE && hd.virt % PAGE_SIZE == 0;
    AreaIsInterval(hd.virt, RegionPages(hd), w);
    FirstNumValue(hd.virt, RegionPages(hd));
    FirstNumBounds(hd.virt, RegionPages(hd));
    OffsetInArea(hd.virt, w);
  }

  lemma OffsetInArea(virt: nat, w: VPage)
    requires virt / PAGE_SIZE <= VNum(w)
    ensures Offset(virt, w) == VNum(w) - virt / PAGE_SIZE
  {
    hide VNum;
    SubtractModSpace(VNum(w), virt / PAGE_SIZE, VNum(w) - virt / PAGE_SIZE);
  }

  /** From power-on, after every run: a page that pager_init mapped to itself is still there exactly if
      every recorded area that contains it has its memory at its own addresses, with the same attributes,
      and no free has reached the page. */
  lemma IdentityKeptExactly(memory: Memory, bits: nat, entries: seq<E820Entry>, ops: seq<Op>, w: VPage)
    requires Booted(memory, bits, entries) && RunOk(PagerInit(memory, bits, entries).0, ops)
    requires !RunOps(PagerInit(memory, bits, entries).0, ops).failed && IdentityPage(w)
    ensures var boot := PagerInit(memory, bits, entries).0;
            var s := RunOps(boot, ops);
            Walk(s.pages, s.root, w) == Some(IdentityLeaf(w))
            <==> forall g :: 0 <= g < |s.table.headers| && InArea(s.table.headers[g], w) ==>
                               var hd := s.table.headers[g];
                               hd.phys == hd.virt && Attrs(hd.flags) == Attrs(LINK_FLAGS) && !Freed(boot, ops, w)
  {
    hide PagerInit, Inv, RunOk, RunOps, RamRanges, RangesOk, MapOk, Translate, Live, TreeWalk, Walk, HugeSlot, VNum;
    hide Covered, IdentityAddress, Mappable, InArea, Freed, Attrs, RecordedLeaf;
    BootMapsMemory(memory, bits, entries);
    var boot := PagerInit(memory, bits, entries).0;
    var s := RunOps(boot, ops);
    PageHistory(boot, ops, w);
    InvParts(s);
    WalksFollowTrees(s);
    forall g | 0 <= g < |s.table.headers| && InArea(s.table.headers[g], w)
      ensures |boot.table.headers| <= g
      ensures RecordedLeaf(s.table.headers[g], w) == IdentityLeaf(w)
              <==> s.table.headers[g].phys == s.table.headers[g].virt
                   && Attrs(s.table.headers[g].flags) == Attrs(LINK_FLAGS)
    {
      if g < |boot.table.headers| {
        assert s.table.headers[g] == boot.table.headers[g];
        SensitiveIsHigh(s, g, w);
      }
      OwnPlaceExactly(s, g, w);
    }
  }

  // ----- page 0

  /** Page 0, where every access through a null pointer goes, stays mapped to itself, present and writable,
      in every run: no area contains it. */
  lemma PageZeroStays(memory: Memory, bits: nat, entries: seq<E820Entry>, ops: seq<Op>)
    requires Booted(memory, bits, entries) && RunOk(PagerInit(memory, bits, entries).0, ops)
    requires !RunOps(PagerInit(memory, bits, entries).0, ops).failed
    ensures var s := RunOps(PagerInit(memory, bits, entries).0, ops);
            Walk(s.pages, s.root, VPageOf(0)) == Some(Leaf(0, LINK_FLAGS))
  {
    hide PagerInit, RunOk, RunOps, MapOk, RamRanges, RangesOk, Walk, InArea, Freed, Inv;
    ZeroNumber();
    var w, boot := VPageOf(0), PagerInit(memory, bits, entries).0;
    IdentityKeptExactly(memory, bits, entries, ops, w);
    var s := RunOps(boot, ops);
    BootedInvOf(memory, bits, entries);
    PageHistory(boot, ops, w);
    forall g | 0 <= g < |s.table.headers|
      ensures !InArea(s.table.headers[g], w)
    {
      ZeroInNoArea(s, g);
    }
  }

  lemma ZeroNumber()
    ensures var w := VPageOf(0); VNum(w) == 0 && IdentityPage(w) && LowerHalf(w)
    ensures IdentityLeaf(VPageOf(0)) == Leaf(0, LINK_FLAGS)
  {
  }

  lemma BootedInvOf(memory: Memory, bits: nat, entries: seq<E820Entry>)
    requires Booted(memory, bits, entries)
    ensures Inv(PagerInit(memory, bits, entries).0)
  {
    hide PagerInit, Inv, RamRanges, RangesOk, MapOk, Translate, Covered, Mappable;
    BootMapsMemory(memory, bits, entries);
  }

  lemma ZeroInNoArea(s: Mem, g: nat)
    requires Inv(s) && g < |s.table.headers|
    ensures !InArea(s.table.headers[g], VPageOf(0))
  {
    hide Offset, LedgerOk, TablesOk, OwnersOk, RegionsOk, HugeSlotsOk, VPageOf, VNum, FirstNum;
    ZeroNumber();
    var hd := s.table.headers[g];
    assert hd.size == RegionPages(hd) * PAGE_SIZE && hd.virt % PAGE_SIZE == 0;
    AreaIsInterval(hd.virt, RegionPages(hd), VPageOf(0));
    FirstNumValue(hd.virt, RegionPages(hd));
    FirstNumBounds(hd.virt, RegionPages(hd));
    HeaderBounds(s.heaps, s.table.headers, g);
  }

  // ----- the address through which the program reads its first table

  /** No area recorded below the sensitive space from `from` on has page t for memory. */
  ghost predicate MemoryAvoids(headers: seq<Header>, from: nat, t: nat) {
    forall g :: from <= g < |headers| && headers[g].virt < SENSITIVE_SPACE_BASE ==>
                  !(headers[g].phys / PAGE_SIZE <= t < headers[g].phys / PAGE_SIZE + RegionPages(headers[g]))
  }

  lemma AllocAvoids(s: Mem, size: nat, kind: AllocType, flags: nat, t: nat)
    requires RecordsOk(s) && Fits(s.heaps, size, kind) && Run(t, 1, PageTable) in s.runs
    requires !Alloc(s, size, kind, flags).0.failed
    ensures MemoryAvoids(Alloc(s, size, kind, flags).0.table.headers, |s.table.headers|, t)
  {
    hide Alloc, MapRange, LedgerOk, HeadersOk, OwnersOk, NewHeader, AfterRecord, Extends, Behind;
    AllocOutcome(s, size, kind, flags);
    var s' := Alloc(s, size, kind, flags).0;
    if Alloc(s, size, kind, flags).1 == 0 {
      SetAsideRuns(s, s');
    } else {
      var hd, s2 := NewHeader(s, size, kind, flags), AfterRecord(s, size, kind, flags);
      MapRangeBooks(s2, hd.virt, hd.phys, hd.size, flags, 0);
      OtherRun(s2, |s.runs|, t);
      forall g | |s.table.headers| < g < |s'.table.headers|
        ensures s'.table.headers[g].virt >= SENSITIVE_SPACE_BASE
      {
        ExtendedHeader(s, s2, s', hd, g);
      }
      FirstNewHeader(s, s2, s', hd);
    }
  }

  lemma FirstNewHeader(s: Mem, s2: Mem, s': Mem, hd: Header)
    requires Recorded(s, s2, hd) && Extends(s2, s')
    ensures |s.table.headers| < |s'.table.headers| && s'.table.headers[|s.table.headers|] == hd
  {
    hide BooksOk, Behind;
    assert s2.table.headers[|s.table.headers|] == hd;
  }

  /** A page of another run is not in a client's run. */
  lemma OtherRun(s: Mem, k: nat, t: nat)
    requires BooksOk(s) && k < |s.runs| && s.runs[k].owner.Client? && Run(t, 1, PageTable) in s.runs
    ensures !s.runs[k].Has(t)
  {
    hide HeadersOk;
    var i :| 0 <= i < |s.runs| && s.runs[i] == Run(t, 1, PageTable);
    assert if i < k then s.runs[i].Apart(s.runs[k]) else s.runs[k].Apart(s.runs[i]);
  }

  lemma {:induction false} RunsAvoid(s: Mem, ops: seq<Op>, t: nat)
    requires RecordsOk(s) && RunFits(s, ops) && !RunOps(s, ops).failed && Run(t, 1, PageTable) in s.runs
    ensures var s' := RunOps(s, ops);
            s.table.headers <= s'.table.headers && MemoryAvoids(s'.table.headers, |s.table.headers|, t)
    decreases |ops|
  {
    hide BooksOk, OwnersOk, Alloc, Free, VirtToPhys, Fits, FreeRequestOk;
    if ops != [] {
      var s1, s' := Step(s, ops[0]), RunOps(s, ops);
      StepKeepsRecords(s, ops[0]);
      RunsAvoid(s1, ops[1..], t);
      match ops[0] {
        case DoAlloc(size, kind, flags) => AllocAvoids(s, size, kind, flags, t);
        case DoFree(virt) => FreeKeepsRecords(s, virt);
        case DoTranslate(virt) =>
      }
      assert MemoryAvoids(s1.table.headers, |s.table.headers|, t);
      hide Step;
      forall g | |s.table.headers| <= g < |s1.table.headers|
        ensures s'.table.headers[g] == s1.table.headers[g]
      {
      }
    }
  }

  /** A canonical area of the lower half contains an address exactly if it contains its page. */
  lemma AreaOfAddress(s: Mem, g: nat, a: nat)
    requires Inv(s) && g < |s.table.headers| && a < LOW_HALF_END
    ensures InArea(s.table.headers[g], VPageOf(a)) <==> s.table.headers[g].Covers(a)
  {
    hide Offset, LedgerOk, TablesOk, OwnersOk, RegionsOk, HugeSlotsOk, VPageOf, VNum, FirstNum;
    var hd := s.table.headers[g];
    assert hd.size == RegionPages(hd) * PAGE_SIZE && hd.virt % PAGE_SIZE == 0;
    VNumOf(a);
    AreaIsInterval(hd.virt, RegionPages(hd), VPageOf(a));
    FirstNumValue(hd.virt, RegionPages(hd));
    FirstNumBounds(hd.virt, RegionPages(hd));
    HeaderBounds(s.heaps, s.table.headers, g);
  }

  /** The program keeps the physical address of its first table as a pointer. After every run the pointer
      still reaches the table exactly if pager_init mapped that address to itself and no recorded area
      contains it. */
  lemma RootPointerExactly(memory: Memory, bits: nat, entries: seq<E820Entry>, ops: seq<Op>)
    requires Booted(memory, bits, entries) && RunOk(PagerInit(memory, bits, entries).0, ops)
    requires !RunOps(PagerInit(memory, bits, entries).0, ops).failed
    ensures var s := RunOps(PagerInit(memory, bits, entries).0, ops);
            var a := s.root * PAGE_SIZE;
            Translate(s.pages, s.root, a) == Some(a)
            <==> IdentityAddress(a) && forall g :: 0 <= g < |s.table.headers| ==> !s.table.headers[g].Covers(a)
  {
    hide PagerInit, RunOk, RunOps, MapOk, RamRanges, RangesOk, Walk, TreeWalk, InArea, Freed, Inv, VPageOf;
    hide Translate, RecordedLeaf, IdentityAddress, RunFits;
    var boot := PagerInit(memory, bits, entries).0;
    var s := RunOps(boot, ops);
    BootedInvOf(memory, bits, entries);
    GoodRunsAreSafe(boot, ops);
    InvParts(boot);
    RootIsRun(boot);
    RunsAvoid(boot, ops, boot.root);
    RunsKeepInv(boot, ops);
    var a, w := boot.root * PAGE_SIZE, VPageOf(boot.root * PAGE_SIZE);
    SameRoot(boot, ops);
    RootPage(boot.root);
    PageHistory(boot, ops, w);
    BootedAddress(memory, bits, entries, a);
    InvParts(s);
    SoundTree(s);
    TranslateByTree(s, a);
    forall g | 0 <= g < |s.table.headers|
      ensures InArea(s.table.headers[g], w) <==> s.table.headers[g].Covers(a)
      ensures InArea(s.table.headers[g], w) ==>
                |boot.table.headers| <= g && RecordedLeaf(s.table.headers[g], w).frame != boot.root
    {
      AreaOfAddress(s, g, a);
      if InArea(s.table.headers[g], w) {
        RootNotRecorded(memory, bits, entries, s, g, w);
      }
    }
  }

  lemma SoundTree(s: Mem)
    requires Sound(s)
    ensures TreeOk(s.pages, s.root)
  {
  }

  lemma {:induction false} SameRoot(s: Mem, ops: seq<Op>)
    ensures RunOps(s, ops).root == s.root
    decreases |ops|
  {
    hide Alloc, Free, VirtToPhys;
    if ops != [] {
      SameRoot(Step(s, ops[0]), ops[1..]);
    }
  }

  lemma RootIsRun(s: Mem)
    requires PagerOk(s)
    ensures Run(s.root, 1, PageTable) in s.runs && s.root < BITMAP_PAGES
  {
    assert TableAt(s.pages, s.root, Root) == Some(s.root);
    hide TreeOk, HeadersOk;
  }

  lemma RootPage(root: nat)
    requires root < BITMAP_PAGES
    ensures var a := root * PAGE_SIZE;
            && a < LOW_HALF_END && VNum(VPageOf(a)) == root && LowerHalf(VPageOf(a)) && a % PAGE_SIZE == 0
            && (IdentityAddress(a) <==> IdentityPage(VPageOf(a))) && !DirectPage(VPageOf(a))
  {
    hide VNum, VPageOf;
    VNumOf(root * PAGE_SIZE);
  }

  /** What pager_init made of the address. */
  lemma BootedAddress(memory: Memory, bits: nat, entries: seq<E820Entry>, a: nat)
    requires Booted(memory, bits, entries) && a < LOW_HALF_END && a % PAGE_SIZE == 0 && !DirectPage(VPageOf(a))
    requires IdentityAddress(a) <==> IdentityPage(VPageOf(a))
    ensures var s := PagerInit(memory, bits, entries).0;
            TreeWalk(s.pages, s.root, VPageOf(a))
            == if IdentityAddress(a) then Some(IdentityLeaf(VPageOf(a))) else None
    ensures VNum(VPageOf(a)) * PAGE_SIZE == a
  {
    hide PagerInit, Inv, RamRanges, RangesOk, MapOk, Translate, Covered, Mappable, Walk, TreeWalk, VNum, VPageOf;
    hide WindowPage, HugeSlot, IdentityAddress;
    BootMapsMemory(memory, bits, entries);
    var (s, end) := PagerInit(memory, bits, entries);
    BootedSound(s);
    WindowNumbers(VPageOf(a));
    VNumOf(a);
    assert end / PAGE_SIZE <= WINDOW_PAGES;
  }

  lemma RootNotRecorded(memory: Memory, bits: nat, entries: seq<E820Entry>, s: Mem, g: nat, w: VPage)
    requires Booted(memory, bits, entries) && Inv(s) && g < |s.table.headers| && InArea(s.table.headers[g], w)
    requires var boot := PagerInit(memory, bits, entries).0;
             && boot.table.headers <= s.table.headers
             && MemoryAvoids(s.table.headers, |boot.table.headers|, boot.root)
    requires LowerHalf(w)
    ensures var boot := PagerInit(memory, bits, entries).0;
            |boot.table.headers| <= g && RecordedLeaf(s.table.headers[g], w).frame != boot.root
  {
    hide PagerInit, Inv, RamRanges, RangesOk, MapOk, Translate, Covered, Mappable, Offset, LowerHalf;
    BootMapsMemory(memory, bits, entries);
    var boot := PagerInit(memory, bits, entries).0;
    if g < |boot.table.headers| {
      assert s.table.headers[g] == boot.table.headers[g];
    }
    if s.table.headers[g].virt >= SENSITIVE_SPACE_BASE {
      SensitiveIsHigh(s, g, w);
      assert false;
    }
  }

  // ----- the first user allocation

  /** Usable ranges come in the order of their addresses. */
  predicate InOrder(ranges: seq<Range>) {
    forall i, j :: 0 <= i < j < |ranges| && ranges[i].Usable() && ranges[j].Usable() ==>
                     ranges[i].limit <= ranges[j].base < TWO64 / 2
  }

  predicate IsRam(entries: seq<E820Entry>, r: Range) {
    exists i :: 0 <= i < |entries| && entries[i].kind == 1 && entries[i].len >= 1
                && r == Range(entries[i].base, entries[i].End())
  }

  /** The RAM ranges of a sorted memory map are in order. */
  lemma {:induction false} RamInOrder(entries: seq<E820Entry>)
    requires MapOk(entries)
    ensures InOrder(RamRanges(entries))
    ensures forall j :: 0 <= j < |RamRanges(entries)| ==> IsRam(entries, RamRanges(entries)[j])
    decreases |entries|
  {
    if entries != [] {
      var tail, rest := entries[1..], RamRanges(entries[1..]);
      TailOk(entries);
      RamInOrder(tail);
      hide RamRanges, MapOk, IsRam, InOrder;
      forall j | 0 <= j < |rest|
        ensures IsRam(entries, rest[j]) && rest[j].base < TWO64 / 2
        ensures entries[0].len >= 1 ==> entries[0].End() <= rest[j].base
      {
        RamOfTail(entries, rest[j]);
      }
      RamHead(entries);
      if RamRanges(entries) != rest {
        HeadInOrder(entries, Range(entries[0].base, entries[0].End()), rest);
      }
    }
  }

  lemma TailOk(entries: seq<E820Entry>)
    requires MapOk(entries) && entries != []
    ensures MapOk(entries[1..])
  {
    assert forall k :: 0 <= k < |entries[1..]| ==> entries[1..][k] == entries[k + 1];
  }

  lemma RamOfTail(entries: seq<E820Entry>, r: Range)
    requires MapOk(entries) && entries != [] && IsRam(entries[1..], r)
    ensures IsRam(entries, r) && r.base < TWO64 / 2 && (entries[0].len >= 1 ==> entries[0].End() <= r.base)
  {
    var tail := entries[1..];
    var i :| 0 <= i < |tail| && tail[i].kind == 1 && tail[i].len >= 1 && r == Range(tail[i].base, tail[i].End());
    assert entries[i + 1] == tail[i];
  }

  lemma HeadInOrder(entries: seq<E820Entry>, r: Range, rest: seq<Range>)
    requires entries != [] && entries[0].kind == 1 && entries[0].len >= 1
    requires r == Range(entries[0].base, entries[0].End()) && InOrder(rest)
    requires forall j :: 0 <= j < |rest| ==>
                           IsRam(entries, rest[j]) && r.limit <= rest[j].base < TWO64 / 2
    ensures InOrder([r] + rest) && forall j :: 0 <= j < |[r] + rest| ==> IsRam(entries, ([r] + rest)[j])
  {
    hide Range.Usable;
    var all := [r] + rest;
    assert IsRam(entries, r);
    hide IsRam;
    forall j | 0 <= j < |all|
      ensures IsRam(entries, all[j])
    {
      assert all[j] == if j == 0 then r else rest[j - 1];
    }
    forall i, j | 0 <= i < j < |all| && all[i].Usable() && all[j].Usable()
      ensures all[i].limit <= all[j].base < TWO64 / 2
    {
      assert all[j] == rest[j - 1] && (i > 0 ==> all[i] == rest[i - 1]);
    }
  }

  lemma RamHead(entries: seq<E820Entry>)
    requires entries != []
    ensures var rest, e := RamRanges(entries[1..]), entries[0];
            || RamRanges(entries) == rest
            || (e.kind == 1 && e.len >= 1 && RamRanges(entries) == [Range(e.base, e.End())] + rest)
  {
  }

  /** The very first page taken is page 1 if any range starts there. */
  lemma FirstPageTaken(ph: Phys, k: nat)
    requires RangesOk(ph.ranges) && InOrder(ph.ranges) && ph.used == {} && ph.hint == 0
    requires k < |ph.ranges| && ph.ranges[k].Usable() && ph.ranges[k].FirstPage() == 1
    ensures AllocPhys(ph, PAGE_SIZE).1 == PAGE_SIZE
  {
    hide AllocPhys, Align4k, InOneRange;
    AlignOnePage();
    AllocPhysFirstFit(ph, PAGE_SIZE);
    RangeInBytes(ph, k, 1, 1);
    assert InOneRange(ph, k, 1, 1) && FreeRun(ph.used, 1, 1);
    var start := AllocPhys(ph, PAGE_SIZE).1 / PAGE_SIZE;
    var j: nat :| InOneRange(ph, j, start, 1)
      && (forall q: nat :: InOneRange(ph, j, q, 1) && q < start ==> !FreeRun(ph.used, q, 1))
      && (forall i: nat, q: nat :: i < j && InOneRange(ph, i, q, 1) ==> !FreeRun(ph.used, q, 1));
    assert j <= k;
    RangeInBytes(ph, j, start, 1);
    RangeInBytes(ph, j, 1, 1);
    OrderedPages(ph.ranges[j], ph.ranges[k]);
    assert InOneRange(ph, j, 1, 1) && FreeRun(ph.used, 1, 1);
  }

  /** No usable range lies before one that starts at page 1. */
  lemma OrderedPages(a: Range, b: Range)
    ensures a.Usable() && a.FirstPage() >= 1 && a.limit <= b.base < TWO64 / 2 ==> b.FirstPage() != 1
  {
  }

  /** The first page of the user heap is one of the firmware's: the first user allocation of a page moves
      it to another place. */
  lemma FirstUserPage(memory: Memory, bits: nat, entries: seq<E820Entry>, flags: nat)
    requires Booted(memory, bits, entries) && !Huge(flags)
    ensures var s := PagerInit(memory, bits, entries).0;
            var (s', virt) := Alloc(s, PAGE_SIZE, User, flags);
            && Translate(s.pages, s.root, USER_SPACE_BASE) == Some(USER_SPACE_BASE)
            && (virt != 0 <==> AllocPhys(s.phys, PAGE_SIZE).1 != 0 && |s.table.headers| < STATIC_HEADERS)
            && (virt != 0 && !s'.failed ==>
                  && virt == USER_SPACE_BASE
                  && Translate(s'.pages, s'.root, virt) == Some(VirtToPhys(s'.table, virt).1)
                  && VirtToPhys(s'.table, virt).1 != virt)
  {
    hide PagerInit, Alloc, TreeOk, Translate, TreeWalk, HugeSlot, VPageOf, VNum, Covered, Inv, MapOk;
    hide VirtToPhys, AllocPhys, BooksOk, IdentityAddress, RamRanges, Live, Mappable, Attrs;
    BootedState(memory, bits, entries);
    var s := PagerInit(memory, bits, entries).0;
    OnePageSucceeds(s, flags);
    var (s', virt) := Alloc(s, PAGE_SIZE, User, flags);
    if virt != 0 && !s'.failed {
      OnePageMapped(s, flags);
      TranslateByTree(s', virt);
      PageOneIsTaken(memory, bits, entries);
      NewPhys(s, flags);
    }
  }

  lemma NewPhys(s: Mem, flags: nat)
    ensures NewHeader(s, PAGE_SIZE, User, flags).phys == AllocPhys(s.phys, PAGE_SIZE).1
  {
    AlignOnePage();
  }

  lemma BootedState(memory: Memory, bits: nat, entries: seq<E820Entry>)
    requires Booted(memory, bits, entries)
    ensures var s := PagerInit(memory, bits, entries).0;
            && Sound(s) && BooksOk(s) && s.heaps.user == USER_SPACE_BASE
            && Translate(s.pages, s.root, USER_SPACE_BASE) == Some(USER_SPACE_BASE)
            && !HugeSlot(s.pages, s.root, VPageOf(USER_SPACE_BASE))
  {
    hide PagerInit, Inv, RamRanges, Translate, HugeSlot, TreeWalk, VPageOf, VNum, Covered, Live, Mappable;
    BootMapsMemory(memory, bits, entries);
    InvParts(PagerInit(memory, bits, entries).0);
    UserBaseNumber();
  }

  lemma UserBaseNumber()
    ensures VNum(VPageOf(USER_SPACE_BASE)) == 1 && IdentityAddress(USER_SPACE_BASE)
  {
    VNumOf(USER_SPACE_BASE);
  }

  /** After pager_init no allocation of a page gets page 1. */
  lemma PageOneIsTaken(memory: Memory, bits: nat, entries: seq<E820Entry>)
    requires Booted(memory, bits, entries)
    ensures AllocPhys(PagerInit(memory, bits, entries).0.phys, PAGE_SIZE).1 != PAGE_SIZE
  {
    hide PagerInit, RamRanges, AllocPhys, Align4k, HeadersOk, OwnersOk, MapOk;
    BooksFromBoot(memory, bits, entries);
    var s := PagerInit(memory, bits, entries).0;
    AlignOnePage();
    AllocPhysFirstFit(s.phys, PAGE_SIZE);
    if AllocPhys(s.phys, PAGE_SIZE).1 == PAGE_SIZE {
      var k: nat :| InOneRange(s.phys, k, 1, 1);
      RangeInBytes(s.phys, k, 1, 1);
      PageOneStarts(s.phys.ranges, k);
      RamInOrder(entries);
      FirstPageTaken(Phys(RangeTable(entries), {}, 0), k);
      RootIsUsed(memory, bits, entries);
      assert false;
    }
  }

  /** A usable range that has page 1 starts there. */
  lemma PageOneStarts(ranges: seq<Range>, k: nat)
    requires RangesOk(ranges) && k < |ranges| && ranges[k].Usable() && ranges[k].FirstPage() <= 1
    ensures ranges[k].FirstPage() == 1
  {
  }

  lemma RootIsUsed(memory: Memory, bits: nat, entries: seq<E820Entry>)
    requires Booted(memory, bits, entries)
    ensures PagerInit(memory, bits, entries).0.root in PagerInit(memory, bits, entries).0.phys.used
  {
    hide PagerInit, RamRanges, MapOk, Covered, IdentityMapped, Mappable, RegionsOk, HugeSlotsOk, AreasOk, OwnersOk;
    hide HeadersOk, Translate, IdentityAddress;
    BootMapsMemory(memory, bits, entries);
    var s := PagerInit(memory, bits, entries).0;
    assert TableAt(s.pages, s.root, Root) == Some(s.root);
    HeldByTable(s.pages, s.root, s.runs, s.root);
  }

  /** Where the first table is page 1, as it is when some RAM range starts there, the first user page
      takes the pointer's address. */
  lemma RootPointerIsTaken(memory: Memory, bits: nat, entries: seq<E820Entry>, flags: nat)
    requires Booted(memory, bits, entries) && !Huge(flags) && PagerInit(memory, bits, entries).0.root == 1
    ensures var s := PagerInit(memory, bits, entries).0;
            var (s', virt) := Alloc(s, PAGE_SIZE, User, flags);
            var a := s.root * PAGE_SIZE;
            && Translate(s.pages, s.root, a) == Some(a)
            && (virt != 0 && !s'.failed ==> virt == a && Translate(s'.pages, s'.root, a) != Some(a))
  {
    hide PagerInit, Alloc, Translate, MapOk, RamRanges, RangesOk, VirtToPhys, AllocPhys;
    FirstUserPage(memory, bits, entries, flags);
  }
}
