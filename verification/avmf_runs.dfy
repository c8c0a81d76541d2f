/** What every run of avmf_alloc, avmf_free and avmf_virt_to_phys keeps: header records and page
    tables agree, physical pages are conserved, page tables are never handed out again. */
module AvmfRuns {
  import opened Words
  import opened Regions
  import opened Paging
  import opened Addresses
  import opened MemoryState
  import opened Mapping
  import opened RangeMapping
  import opened Bookkeeping
  import opened PageMaps

  // ----- areas of virtual pages

  const FIRMWARE_BASE: nat := 0xFF00_0000
  const LOW_HALF_END: nat := 0x8000_0000_0000

  /** The area lies in the lower or in the kernel's half of the 48-bit space, clear of the direct map. */
  predicate Canonical(virt: nat, size: nat) {
    virt + size <= LOW_HALF_END || (KERNEL_SPACE_BASE <= virt && virt + size <= TWO64)
  }

  /** ... and clear of the firmware window below 4 GiB, which pager_init maps with 2 MiB pages. */
  predicate ClearOfSystem(virt: nat, size: nat) {
    Canonical(virt, size) && (virt + size <= FIRMWARE_BASE || TWO32 <= virt)
  }

  predicate FirmwarePage(w: VPage) { 0xF_F000 <= VNum(w) < 0x10_0000 }

  predicate DirectPage(w: VPage) { 0x8_0000_0000 <= VNum(w) < 0xA_0000_0000 }

  /** The slots pager_init may have mapped whole. */
  predicate SystemPage(w: VPage) { FirmwarePage(w) || DirectPage(w) }

  function FirstNum(virt: nat): nat { virt / PAGE_SIZE % SPACE_PAGES }

  lemma IntervalOffsets(p: nat, f: nat, n: nat, b: nat)
    requires f == p % SPACE_PAGES && f + n <= SPACE_PAGES && b < SPACE_PAGES
    ensures (b - p) % SPACE_PAGES < n <==> f <= b < f + n
  {
    var d := if b >= f then b - f else b - f + SPACE_PAGES;
    SubtractModSpace(b, p, d);
    AddModSpace(p, d);
    assert (f + d) % SPACE_PAGES == b;
  }

  lemma FirstNumValue(virt: nat, n: nat)
    requires virt % PAGE_SIZE == 0 && Canonical(virt, n * PAGE_SIZE) && n > 0
    ensures virt == virt / PAGE_SIZE * PAGE_SIZE
    ensures FirstNum(virt) == virt / PAGE_SIZE - (if virt >= KERNEL_SPACE_BASE then 0xFFFF * SPACE_PAGES else 0)
  {
    var p := virt / PAGE_SIZE;
    if virt >= KERNEL_SPACE_BASE {
      assert p == 0xFFFF * SPACE_PAGES + (p - 0xFFFF * SPACE_PAGES);
    }
  }

  lemma FirstNumBounds(virt: nat, n: nat)
    requires virt % PAGE_SIZE == 0 && Canonical(virt, n * PAGE_SIZE) && n > 0
    ensures var f := FirstNum(virt);
            && (f + n <= 0x8_0000_0000 || (0xA_0000_0000 <= f && f + n <= SPACE_PAGES))
            && (ClearOfSystem(virt, n * PAGE_SIZE) ==> f + n <= 0xF_F000 || 0x10_0000 <= f)
  {
    hide FirstNum;
    FirstNumValue(virt, n);
  }

  /** A canonical area is an interval of page numbers. */
  lemma AreaIsInterval(virt: nat, n: nat, w: VPage)
    requires virt % PAGE_SIZE == 0 && Canonical(virt, n * PAGE_SIZE) && n > 0
    ensures FirstNum(virt) + n <= SPACE_PAGES
    ensures Offset(virt, w) < n <==> FirstNum(virt) <= VNum(w) < FirstNum(virt) + n
    ensures Offset(virt, w) < n ==> !DirectPage(w) && (ClearOfSystem(virt, n * PAGE_SIZE) ==> !SystemPage(w))
  {
    FirstNumBounds(virt, n);
    IntervalOffsets(virt / PAGE_SIZE, FirstNum(virt), n, VNum(w));
    hide VNum;
  }

  /** Disjoint canonical areas have disjoint intervals of page numbers. */
  lemma ApartNumbers(v1: nat, n1: nat, v2: nat, n2: nat)
    requires v1 % PAGE_SIZE == 0 && Canonical(v1, n1 * PAGE_SIZE) && n1 > 0
    requires v2 % PAGE_SIZE == 0 && Canonical(v2, n2 * PAGE_SIZE) && n2 > 0
    requires v1 + n1 * PAGE_SIZE <= v2
    ensures FirstNum(v1) + n1 <= FirstNum(v2)
  {
    hide FirstNum;
    FirstNumValue(v1, n1);
    FirstNumValue(v2, n2);
  }

  lemma ApartAreas(v1: nat, n1: nat, v2: nat, n2: nat, w: VPage)
    requires v1 % PAGE_SIZE == 0 && Canonical(v1, n1 * PAGE_SIZE) && n1 > 0
    requires v2 % PAGE_SIZE == 0 && Canonical(v2, n2 * PAGE_SIZE) && n2 > 0
    requires Interval(v1, n1 * PAGE_SIZE).Apart(Interval(v2, n2 * PAGE_SIZE))
    ensures !(Offset(v1, w) < n1 && Offset(v2, w) < n2)
  {
    hide Offset, VNum, FirstNum;
    AreaIsInterval(v1, n1, w);
    AreaIsInterval(v2, n2, w);
    if v1 + n1 * PAGE_SIZE <= v2 {
      ApartNumbers(v1, n1, v2, n2);
    } else {
      ApartNumbers(v2, n2, v1, n1);
    }
  }

  // ----- the invariant

  /** Every live region is mapped as recorded. */
  ghost predicate RegionsOk(s: Mem) {
    forall h :: 0 <= h < |s.table.headers| && Live(s, h) ==> RegionMapped(s.pages, s.root, s.table.headers[h])
  }

  ghost predicate InRegion(hd: Header, w: VPage) {
    SlotInside(hd.virt, 0, RegionPages(hd), w)
  }

  /** Every slot mapped whole is a system slot or lies wholly inside one region. */
  ghost predicate HugeSlotsOk(s: Mem) {
    forall w :: HugeSlot(s.pages, s.root, w) ==>
                  SystemPage(w) || exists g :: 0 <= g < |s.table.headers| && InRegion(s.table.headers[g], w)
  }

  ghost predicate AreasOk(headers: seq<Header>) {
    forall g :: 0 <= g < |headers| ==> ClearOfSystem(headers[g].virt, headers[g].size)
  }

  ghost predicate Inv(s: Mem) {
    Sound(s) && AreasOk(s.table.headers) && RegionsOk(s) && HugeSlotsOk(s)
  }

  /** The firmware window and the direct map keep their translation, and their slots mapped whole. */
  ghost predicate SystemStays(s: Mem, s': Mem) {
    forall w :: SystemPage(w) ==>
                  && TreeWalk(s'.pages, s'.root, w) == TreeWalk(s.pages, s.root, w)
                  && HugeSlot(s'.pages, s'.root, w) == HugeSlot(s.pages, s.root, w)
  }

  ghost predicate AllCanonical(headers: seq<Header>) {
    forall g :: 0 <= g < |headers| ==> Canonical(headers[g].virt, headers[g].size)
  }

  lemma ClearIsCanonical(headers: seq<Header>)
    requires AreasOk(headers)
    ensures AllCanonical(headers)
  {
  }

  /** Headers of different regions share no page. */
  lemma RegionsApart(h: Heaps, headers: seq<Header>, i: nat, j: nat, w: VPage)
    requires HeadersOk(h, headers) && AllCanonical(headers) && i < |headers| && j < |headers|
    requires InArea(headers[i], w)
    requires InArea(headers[j], w)
    ensures i == j
  {
    hide Offset;
    var a, b := headers[i], headers[j];
    assert a.size == RegionPages(a) * PAGE_SIZE && b.size == RegionPages(b) * PAGE_SIZE;
    if i != j {
      assert if i < j then a.Area().Apart(b.Area()) else b.Area().Apart(a.Area());
      ApartAreas(a.virt, RegionPages(a), b.virt, RegionPages(b), w);
    }
  }

  /** A page of a region in a slot mapped whole: the slot is inside that region. */
  lemma SlotOfRegion(s: Mem, h: nat, v: VPage, w: VPage)
    requires PagerOk(s) && AreasOk(s.table.headers) && HugeSlotsOk(s) && h < |s.table.headers|
    requires InArea(s.table.headers[h], v)
    requires HugeSlot(s.pages, s.root, v) && PtNode(w) == PtNode(v)
    ensures InArea(s.table.headers[h], w)
  {
    hide Offset, HugeSlot, LedgerOk, TablesOk, VNum;
    var hd := s.table.headers[h];
    assert hd.size == RegionPages(hd) * PAGE_SIZE;
    AreaIsInterval(hd.virt, RegionPages(hd), v);
    var g :| 0 <= g < |s.table.headers| && InRegion(s.table.headers[g], v);
    RegionsApart(s.heaps, s.table.headers, g, h, v);
  }

  // ----- avmf_alloc

  /** A request the caller may make: positive, no 64-bit wrap-around, no page-size bit among the
      flags, and (for user memory) an area that is canonical and clear of the firmware window. */
  predicate AllocRequestOk(s: Mem, size: nat, kind: AllocType, flags: nat) {
    Fits(s.heaps, size, kind) && !Huge(flags) && ClearOfSystem(s.heaps.Top(kind), Align4k(size))
  }

  /** A region just recorded meets no slot mapped whole, so none of its pages is lost. */
  lemma NewRegionIsFree(s: Mem, s2: Mem, hd: Header)
    requires Inv(s) && Recorded(s, s2, hd) && ClearOfSystem(hd.virt, hd.size)
    ensures forall w :: InArea(hd, w) ==> !HugeSlot(s.pages, s.root, w) && !SystemPage(w)
  {
    hide Offset, HugeSlot, LedgerOk, TablesOk, OwnersOk, RegionsOk, SystemPage;
    RecordedAreasOk(s, s2, hd);
    forall w | InArea(hd, w)
      ensures !HugeSlot(s.pages, s.root, w) && !SystemPage(w)
    {
      assert hd.size == RegionPages(hd) * PAGE_SIZE;
      assert s2.table.headers[|s.table.headers|] == hd;
      AreaIsInterval(hd.virt, RegionPages(hd), w);
      if HugeSlot(s.pages, s.root, w) {
        var g :| 0 <= g < |s.table.headers| && InRegion(s.table.headers[g], w);
        assert PtNode(w) == PtNode(w);
        assert s2.table.headers[g] == s.table.headers[g];
        RegionsApart(s2.heaps, s2.table.headers, g, |s.table.headers|, w);
      }
    }
  }

  lemma RecordedAreasOk(s: Mem, s2: Mem, hd: Header)
    requires AreasOk(s.table.headers) && Recorded(s, s2, hd) && ClearOfSystem(hd.virt, hd.size)
    ensures AreasOk(s2.table.headers) && HeadersOk(s2.heaps, s2.table.headers) && hd.virt % PAGE_SIZE == 0
  {
    assert s2.table.headers[|s.table.headers|] == hd;
    hide LedgerOk, TablesOk, Behind, ClearOfSystem;
  }

  /** Mapping the new region completes it and leaves every other region and the system's maps alone. */
  lemma MappingKeepsInv(s: Mem, s2: Mem, s': Mem, hd: Header)
    requires Inv(s) && Recorded(s, s2, hd) && ClearOfSystem(hd.virt, hd.size)
    requires Sound(s') && MapsHeader(s, s', hd) && Extends(s2, s')
    ensures Inv(s') && SystemStays(s, s')
  {
    NewRegionIsFree(s, s2, hd);
    MappingKeepsRegions(s, s2, s', hd);
    MappingKeepsSlots(s, s2, s', hd);
    MappingKeepsAreas(s, s2, s', hd);
    forall w | WholeStep(hd.virt, hd.phys, hd.size, 0, w)
      ensures InArea(hd, w)
    {
      AreaPages(s, s2, hd);
      WholeStepLater(hd.virt, hd.phys, hd.size, 0, w);
    }
    hide WholeStep, InArea;
    hide Sound, AreasOk, RegionsOk, HugeSlotsOk, SystemPage, TreeWalk, HugeSlot, Recorded, Extends, RecordedLeaf;
  }

  lemma MappingKeepsAreas(s: Mem, s2: Mem, s': Mem, hd: Header)
    requires AreasOk(s.table.headers) && Recorded(s, s2, hd) && ClearOfSystem(hd.virt, hd.size)
    requires Sound(s') && Extends(s2, s')
    ensures AreasOk(s'.table.headers)
  {
    hide LedgerOk, TablesOk, OwnersOk, Behind;
    RecordedAreasOk(s, s2, hd);
    forall g | 0 <= g < |s'.table.headers|
      ensures ClearOfSystem(s'.table.headers[g].virt, s'.table.headers[g].size)
    {
      if g < |s2.table.headers| {
        assert s'.table.headers[g] == s2.table.headers[g];
      } else {
        HeaderBounds(s'.heaps, s'.table.headers, g);
      }
    }
  }

  /** What the runs after recording and mapping say of live regions: the old ones and the new one. */
  lemma LiveAfterMapping(s: Mem, s2: Mem, s': Mem, hd: Header, h: nat)
    requires OwnersOk(s) && Recorded(s, s2, hd) && Extends(s2, s') && Live(s', h)
    ensures h <= |s.table.headers| < |s'.table.headers| && s2.table.headers <= s'.table.headers
    ensures h < |s.table.headers| ==> Live(s, h) && s'.table.headers[h] == s.table.headers[h] == s2.table.headers[h]
    ensures h == |s.table.headers| ==> s'.table.headers[h] == hd
  {
    hide BooksOk, Behind, RunOfHeader;
    var k :| 0 <= k < |s'.runs| && s'.runs[k].owner == Client(h);
    assert k < |s2.runs| && s'.runs[k] == s2.runs[k];
    if k < |s.runs| {
      assert s2.runs[k] == s.runs[k];
    }
    assert s'.table.headers[h] == s2.table.headers[h];
  }

  lemma MappingKeepsRegions(s: Mem, s2: Mem, s': Mem, hd: Header)
    requires Inv(s) && Recorded(s, s2, hd) && ClearOfSystem(hd.virt, hd.size)
    requires forall w :: InArea(hd, w) ==> !HugeSlot(s.pages, s.root, w)
    requires MapsHeader(s, s', hd) && Extends(s2, s')
    ensures RegionsOk(s')
  {
    hide Offset, HugeSlot, TreeWalk, BooksOk, TablesOk, HugeSlotsOk, Attrs, ClearOfSystem, Behind, Recorded, Extends;
    hide Live, OwnersOk;
    assert BooksOk(s2) && s2.table.headers == s.table.headers + [hd] by {
      RecordedBooks(s, s2, hd);
    }
    RecordedAreasOk(s, s2, hd);
    ClearIsCanonical(s2.table.headers);
    forall h | 0 <= h < |s'.table.headers| && Live(s', h)
      ensures RegionMapped(s'.pages, s'.root, s'.table.headers[h])
    {
      LiveAfterMapping(s, s2, s', hd, h);
      if h < |s.table.headers| {
        forall w | InArea(s.table.headers[h], w)
          ensures !InArea(hd, w)
        {
          if InArea(hd, w) {
            RegionsApart(s2.heaps, s2.table.headers, h, |s.table.headers|, w);
          }
        }
      }
    }
  }

  lemma RecordedBooks(s: Mem, s2: Mem, hd: Header)
    requires Recorded(s, s2, hd)
    ensures BooksOk(s2) && s2.table.headers == s.table.headers + [hd]
  {
  }

  lemma MappingKeepsSlots(s: Mem, s2: Mem, s': Mem, hd: Header)
    requires HugeSlotsOk(s) && Recorded(s, s2, hd) && MapsHeader(s, s', hd) && Extends(s2, s')
    ensures HugeSlotsOk(s')
  {
    hide Offset, HugeSlot, TreeWalk, SlotInside, WholeStep, ClearOfSystem, Behind, SystemPage, LedgerOk, HeadersOk;
    AreaPages(s, s2, hd);
    forall w | HugeSlot(s'.pages, s'.root, w)
      ensures SystemPage(w) || exists g :: 0 <= g < |s'.table.headers| && InRegion(s'.table.headers[g], w)
    {
      if HugeSlot(s.pages, s.root, w) {
        if !SystemPage(w) {
          var g :| 0 <= g < |s.table.headers| && InRegion(s.table.headers[g], w);
          assert s'.table.headers[g] == s2.table.headers[g] == s.table.headers[g];
        }
      } else {
        var g := |s.table.headers|;
        assert s'.table.headers[g] == s2.table.headers[g] == hd;
        WholeStepInside(hd.virt, hd.phys, hd.size, 0, w);
        assert InRegion(s'.table.headers[g], w);
      }
    }
  }

  lemma AreaPages(s: Mem, s2: Mem, hd: Header)
    requires Recorded(s, s2, hd)
    ensures PageCount(hd.size) == RegionPages(hd) && hd.size <= SPACE_PAGES * PAGE_SIZE
  {
  }
}
