/** Safety of the memory manager over every run of its operations. */
module AvmfSafety {
  import opened Words
  import opened Regions
  import opened Paging
  import opened Addresses
  import opened MemoryState
  import opened Mapping
  import opened RangeMapping
  import opened Unmapping
  import opened Bookkeeping
  import opened PageMaps
  import opened AvmfRuns

  // ----- avmf_alloc

  /** A request clear of the system's maps loses no page. */
  lemma ClearRequestIsSafe(s: Mem, size: nat, kind: AllocType, flags: nat)
    requires Inv(s) && AllocRequestOk(s, size, kind, flags)
    ensures AllocSafe(s, size, kind, flags)
  {
    hide Inv, Alloc, Recorded, ClearOfSystem, NewHeader, AfterRecord, HugeSlot, SlotFrame, WholeStep, SetAside, InArea;
    hide MapRange, Fits;
    InvParts(s);
    AllocOutcome(s, size, kind, flags);
    if Alloc(s, size, kind, flags).1 != 0 {
      var s2, hd := AfterRecord(s, size, kind, flags), NewHeader(s, size, kind, flags);
      assert hd.size == Align4k(size) by {
        HeaderSize(s, size, kind, flags);
      }
      NewRegionIsFree(s, s2, hd);
    }
  }

  lemma HeaderSize(s: Mem, size: nat, kind: AllocType, flags: nat)
    ensures NewHeader(s, size, kind, flags).size == Align4k(size)
  {
  }

  lemma InvParts(s: Mem)
    requires Inv(s)
    ensures Sound(s) && PagerOk(s) && BooksOk(s) && OwnersOk(s)
    ensures AreasOk(s.table.headers) && RegionsOk(s) && HugeSlotsOk(s)
    ensures !s.failed && LedgerOk(s.phys, s.runs) && HeadersOk(s.heaps, s.table.headers) && CacheOk(s.table)
  {
  }

  /** The heaps may move and a run may be stranded without touching tables or headers. */
  lemma SetAsideKeepsInv(s: Mem, s': Mem)
    requires Inv(s) && SetAside(s, s')
    ensures Inv(s') && SystemStays(s, s') && s.runs <= s'.runs && s'.table == s.table
  {
    SetAsideSound(s, s');
    SetAsideRuns(s, s');
    hide BooksOk, TablesOk, OwnersOk, RegionMapped, HugeSlot, InRegion, ClearOfSystem, TreeWalk, SystemPage;
    forall h: nat | Live(s', h)
      ensures Live(s, h)
    {
      var k :| 0 <= k < |s'.runs| && s'.runs[k].owner == Client(h);
      assert s.runs[k] == s'.runs[k];
    }
  }

  /** avmf_alloc keeps the invariant; what it returns is a live region with its own header. */
  lemma AllocKeepsInv(s: Mem, size: nat, kind: AllocType, flags: nat)
    requires Inv(s) && AllocRequestOk(s, size, kind, flags) && !Alloc(s, size, kind, flags).0.failed
    ensures var (s', virt) := Alloc(s, size, kind, flags);
            && Inv(s') && s.runs <= s'.runs && s.table.headers <= s'.table.headers && SystemStays(s, s')
            && (virt != 0 ==>
                  var h := |s.table.headers|;
                  && Live(s', h) && h < |s'.table.headers|
                  && s'.table.headers[h].virt == virt && s'.table.headers[h].size == Align4k(size))
  {
    hide Inv, Alloc, Recorded, ClearOfSystem, NewHeader, AfterRecord, SetAside, MapsHeader, Extends, Sound, AllocSafe;
    hide Fits, SystemStays, Live;
    InvParts(s);
    ClearRequestIsSafe(s, size, kind, flags);
    AllocEffect(s, size, kind, flags);
    AllocOutcome(s, size, kind, flags);
    var (s', virt) := Alloc(s, size, kind, flags);
    if virt == 0 {
      SetAsideKeepsInv(s, s');
    } else {
      MappingKeepsInv(s, AfterRecord(s, size, kind, flags), s', NewHeader(s, size, kind, flags));
    }
  }

  // ----- avmf_free

  lemma CoveredPage(s: Mem, virt: nat, h: nat)
    requires HeadersOk(s.heaps, s.table.headers) && h < |s.table.headers| && s.table.headers[h].Covers(virt)
    ensures InArea(s.table.headers[h], VPageOf(virt))
  {
    var hd := s.table.headers[h];
    HeaderBounds(s.heaps, s.table.headers, h);
    VNumOf(virt);
    var p, q := hd.virt / PAGE_SIZE, virt / PAGE_SIZE;
    OffsetOfPage(p, q);
    assert q - p < RegionPages(hd);
  }

  lemma OffsetOfPage(p: nat, q: nat)
    requires p <= q
    ensures (q % SPACE_PAGES - p) % SPACE_PAGES <= q - p
  {
    var d := (q - p) % SPACE_PAGES;
    AddModSpace(p, d);
    SubtractModSpace(q % SPACE_PAGES, p, d);
    assert (p + d) % SPACE_PAGES == q % SPACE_PAGES by {
      var c := (q - p) / SPACE_PAGES;
      assert q == p + d + c * SPACE_PAGES;
    }
  }

  /** One unmap at an address of a region stays inside the region, and clear of the system's maps. */
  lemma UnmappedIsInRegion(s: Mem, virt: nat, h: nat, w: VPage)
    requires Inv(s) && h < |s.table.headers| && s.table.headers[h].Covers(virt) && Unmaps(s, virt, w)
    ensures InArea(s.table.headers[h], w) && !SystemPage(w)
  {
    hide Offset, VPageOf, HugeSlot, OwnersOk, SystemPage, RegionsOk, HugeSlotsOk, InArea;
    CoveredPage(s, virt, h);
    if HugeSlot(s.pages, s.root, VPageOf(virt)) {
      SlotOfRegion(s, h, VPageOf(virt), w);
    }
    RegionIsNoSystem(s, h, w);
  }

  lemma RegionIsNoSystem(s: Mem, h: nat, w: VPage)
    requires Inv(s) && h < |s.table.headers| && InArea(s.table.headers[h], w)
    ensures !SystemPage(w)
  {
    hide Offset, SystemPage, OwnersOk, HugeSlotsOk, LedgerOk, TablesOk;
    var hd := s.table.headers[h];
    assert hd.size == RegionPages(hd) * PAGE_SIZE && hd.virt % PAGE_SIZE == 0;
    AreaIsInterval(hd.virt, RegionPages(hd), w);
  }

  /** avmf_free keeps the invariant, every live region the address does not lie in, and the system's maps. */
  lemma FreeKeepsInv(s: Mem, virt: nat)
    requires Inv(s) && FreeRequestOk(s, virt)
    ensures var s' := Free(s, virt);
            && Inv(s') && s'.table.headers == s.table.headers && SystemStays(s, s')
            && (forall h: nat :: h < |s.table.headers| ==>
                                   (Live(s', h) <==> Live(s, h) && !s.table.headers[h].Covers(virt)))
            && (forall t: nat :: Run(t, 1, PageTable) in s.runs ==> Run(t, 1, PageTable) in s'.runs)
  {
    hide Free, Offset, VPageOf, HugeSlot, TreeWalk, BooksOk, OwnersOk, Live, SystemPage, InArea, RecordedLeaf;
    hide ClearOfSystem, PagerOk, FreeRequestOk;
    InvParts(s);
    FreeKeepsRecords(s, virt);
    FreeEffect(s, virt);
    SlotUnmaps(s, virt);
    var s' := Free(s, virt);
    if h: nat :| h < |s.table.headers| && s.table.headers[h].Covers(virt) {
      forall w | Unmaps(s, virt, w)
        ensures InArea(s.table.headers[h], w) && !SystemPage(w)
      {
        UnmappedIsInRegion(s, virt, h, w);
      }
      forall g, w | 0 <= g < |s.table.headers| && g != h && InArea(s.table.headers[g], w)
        ensures !Unmaps(s, virt, w)
      {
        if Unmaps(s, virt, w) {
          HeadersApart(s, g, h, w);
        }
      }
    }
    SlotsShrink(s, s');
  }

  /** The pages of the slot of an unmapped address are unmapped with it if the slot is mapped whole. */
  lemma SlotUnmaps(s: Mem, virt: nat)
    ensures forall w :: HugeSlot(s.pages, s.root, w) && PtNode(w) == PtNode(VPageOf(virt)) ==> Unmaps(s, virt, w)
  {
    hide VPageOf, TableAt;
  }

  lemma HeadersApart(s: Mem, i: nat, j: nat, w: VPage)
    requires Inv(s) && i < |s.table.headers| && j < |s.table.headers|
    requires InArea(s.table.headers[i], w) && InArea(s.table.headers[j], w)
    ensures i == j
  {
    hide InArea, TablesOk, OwnersOk, RegionsOk, HugeSlotsOk;
    RegionsApart(s.heaps, s.table.headers, i, j, w);
  }

  lemma SlotsShrink(s: Mem, s': Mem)
    requires HugeSlotsOk(s) && s'.table.headers == s.table.headers
    requires forall w :: HugeSlot(s'.pages, s'.root, w) ==> HugeSlot(s.pages, s.root, w)
    ensures HugeSlotsOk(s')
  {
    hide InRegion, HugeSlot;
  }
}
