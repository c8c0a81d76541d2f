/** The page tables against a plain page map: what avmf_alloc and avmf_free do to the translation of every
    page, wherever the areas lie, and over every run in which no lost entry hits a page table. */
module PageMaps {
  import opened Words
  import opened Regions
  import opened Paging
  import opened Addresses
  import opened MemoryState
  import opened Mapping
  import opened RangeMapping
  import opened Unmapping
  import opened Bookkeeping

  /** The books are right and the loaded tables form a tree of pages taken for tables. Nothing is said of
      what they map. */
  ghost predicate Sound(s: Mem) {
    PagerOk(s) && OwnersOk(s) && s.loaded == Some(s.root)
  }

  /** Where a header says page w of its area goes. */
  function RecordedLeaf(hd: Header, w: VPage): Leaf {
    Leaf(hd.phys / PAGE_SIZE + Offset(hd.virt, w), Attrs(hd.flags))
  }

  predicate InArea(hd: Header, w: VPage) { Offset(hd.virt, w) < RegionPages(hd) }

  /** The page walk of every page of the region ends in the page its header records. */
  ghost predicate RegionMapped(m: Memory, root: nat, hd: Header) {
    forall w :: InArea(hd, w) ==> TreeWalk(m, root, w) == Some(RecordedLeaf(hd, w))
  }

  // ----- avmf_alloc

  /** A page of the area that lies in a slot mapped whole before, which the loop does not set anew. */
  ghost predicate LostIn(s: Mem, hd: Header, w: VPage) {
    InArea(hd, w) && HugeSlot(s.pages, s.root, w) && !WholeStep(hd.virt, hd.phys, hd.size, 0, w)
  }

  /** A request that is positive, does not wrap and has no bit 7 among its flags, and whose lost pages, if
      any, lie in slots whose first frame is no page table. */
  ghost predicate AllocSafe(s: Mem, size: nat, kind: AllocType, flags: nat) {
    && Fits(s.heaps, size, kind) && !Huge(flags)
    && forall w :: Alloc(s, size, kind, flags).1 != 0 && LostIn(s, NewHeader(s, size, kind, flags), w) ==>
                     Run(SlotFrame(s.pages, s.root, w), 1, PageTable) !in Alloc(s, size, kind, flags).0.runs
  }

  /** avmf_alloc's mapping of a header, for every page: the pages of the area that are not lost go where
      the header says, all others stay. */
  ghost predicate MapsHeader(s: Mem, s': Mem, hd: Header) {
    && (forall w :: TreeWalk(s'.pages, s'.root, w)
                    == if InArea(hd, w) && !LostIn(s, hd, w) then Some(RecordedLeaf(hd, w))
                       else TreeWalk(s.pages, s.root, w))
    && (forall w :: HugeSlot(s'.pages, s'.root, w)
                    == (HugeSlot(s.pages, s.root, w) || WholeStep(hd.virt, hd.phys, hd.size, 0, w)))
  }

  lemma RecordedRangeOk(s: Mem, s2: Mem, hd: Header)
    requires Recorded(s, s2, hd) && 32 <= s2.physBits <= 52 && !Huge(hd.flags)
    ensures RangeOk(s2, hd.virt, hd.phys, hd.size, hd.flags) && PageCount(hd.size) == RegionPages(hd)
  {
    Pow2Values();
    Pow2Monotone(32, s2.physBits);
    assert s2.table.headers[|s.table.headers|] == hd;
    HeaderBounds(s2.heaps, s2.table.headers, |s.table.headers|);
    assert hd.virt % PAGE_SIZE == 0;
  }

  lemma RecordedPager(s: Mem, s2: Mem, hd: Header)
    requires PagerOk(s) && Recorded(s, s2, hd)
    ensures PagerOk(s2)
  {
    hide BooksOk, TreeOk;
  }

  lemma SetAsideSound(s: Mem, s': Mem)
    requires Sound(s) && SetAside(s, s')
    ensures Sound(s')
  {
    SetAsideOwners(s, s');
    hide BooksOk, TreeOk, OwnersOk;
  }

  /** Mapping a header just recorded. */
  lemma MapHeader(s: Mem, s2: Mem, hd: Header)
    requires Sound(s) && Recorded(s, s2, hd) && !Huge(hd.flags)
    requires !MapRange(s2, hd.virt, hd.phys, hd.size, hd.flags, 0).failed
    requires forall w :: LostIn(s, hd, w) ==>
               Run(SlotFrame(s.pages, s.root, w), 1, PageTable)
               !in MapRange(s2, hd.virt, hd.phys, hd.size, hd.flags, 0).runs
    ensures var s' := MapRange(s2, hd.virt, hd.phys, hd.size, hd.flags, 0);
            && Sound(s') && MapsHeader(s, s', hd) && Extends(s2, s')
            && s.runs <= s'.runs && s.table.headers <= s'.table.headers
            && |s.table.headers| < |s'.table.headers| && s'.table.headers[|s.table.headers|] == hd
            && Live(s', |s.table.headers|)
  {
    hide MapRange, Offset, TreeWalk, HugeSlot, SlotFrame, WholeStep, OwnersOk, BooksOk, TreeOk, Attrs, Behind, Live;
    RecordedPager(s, s2, hd);
    RecordedRangeOk(s, s2, hd);
    var s' := MapRange(s2, hd.virt, hd.phys, hd.size, hd.flags, 0);
    MapRangeExact(s2, hd.virt, hd.phys, hd.size, hd.flags, 0);
    RecordedOwners(s, s2, hd);
    ExtendedOwners(s2, s');
    LiveIsPrefix(s2, s', |s.table.headers|);
    assert s'.table.headers[|s.table.headers|] == s2.table.headers[|s.table.headers|];
  }

  /** avmf_alloc, for every request whose lost entries hit no page table: a failed one changes no
      translation, a successful one maps exactly the pages of its area that are not lost. */
  lemma AllocEffect(s: Mem, size: nat, kind: AllocType, flags: nat)
    requires Sound(s) && AllocSafe(s, size, kind, flags) && !Alloc(s, size, kind, flags).0.failed
    ensures var (s', virt) := Alloc(s, size, kind, flags);
            var hd, h := NewHeader(s, size, kind, flags), |s.table.headers|;
            && Sound(s') && s.runs <= s'.runs && s.table.headers <= s'.table.headers
            && (virt == 0 ==> SetAside(s, s'))
            && (virt != 0 ==>
                  && MapsHeader(s, s', hd) && virt == hd.virt && hd.flags == flags && hd.size == Align4k(size)
                  && Recorded(s, AfterRecord(s, size, kind, flags), hd)
                  && Extends(AfterRecord(s, size, kind, flags), s')
                  && Live(s', h) && h < |s'.table.headers| && s'.table.headers[h] == hd)
  {
    hide Alloc, MapRange, AfterRecord, OwnersOk, BooksOk, TreeOk, MapsHeader, LostIn, Recorded, SetAside, SlotFrame;
    hide Live;
    AllocOutcome(s, size, kind, flags);
    var (s', virt) := Alloc(s, size, kind, flags);
    if virt == 0 {
      SetAsideSound(s, s');
      SetAsideRuns(s, s');
    } else {
      MapHeader(s, AfterRecord(s, size, kind, flags), NewHeader(s, size, kind, flags));
    }
  }

  lemma SetAsideRuns(s: Mem, s': Mem)
    requires SetAside(s, s')
    ensures s.runs <= s'.runs && s'.table == s.table && s'.pages == s.pages && s'.root == s.root
  {
  }

  lemma WalksFollowTrees(s: Mem)
    requires Sound(s)
    ensures forall w :: Walk(s.pages, s.root, w) == TreeWalk(s.pages, s.root, w)
  {
    hide Walk, TreeWalk, TreeOk, BooksOk, OwnersOk;
    forall w
      ensures Walk(s.pages, s.root, w) == TreeWalk(s.pages, s.root, w)
    {
      WalkFollowsTree(s.pages, s.root, w);
    }
  }

  /** The region avmf_alloc returns is mapped as recorded exactly if every page of it that lies in a slot
      mapped whole before is set anew with its slot, or went there already. */
  lemma RegionMappedExactly(s: Mem, size: nat, kind: AllocType, flags: nat)
    requires Sound(s) && AllocSafe(s, size, kind, flags)
    requires !Alloc(s, size, kind, flags).0.failed && Alloc(s, size, kind, flags).1 != 0
    ensures var s', hd := Alloc(s, size, kind, flags).0, NewHeader(s, size, kind, flags);
            (forall w :: InArea(hd, w) ==> Walk(s'.pages, s'.root, w) == Some(RecordedLeaf(hd, w)))
            <==> forall w :: InArea(hd, w) && HugeSlot(s.pages, s.root, w) ==>
                               || WholeStep(hd.virt, hd.phys, hd.size, 0, w)
                               || Walk(s.pages, s.root, w) == Some(RecordedLeaf(hd, w))
  {
    hide Alloc, AllocSafe, NewHeader, Sound, TreeWalk, Walk, HugeSlot, WholeStep, InArea, RecordedLeaf;
    hide Recorded, Extends;
    AllocEffect(s, size, kind, flags);
    var s', hd := Alloc(s, size, kind, flags).0, NewHeader(s, size, kind, flags);
    WalksFollowTrees(s);
    WalksFollowTrees(s');
    forall w | InArea(hd, w)
      ensures Walk(s'.pages, s'.root, w) == Some(RecordedLeaf(hd, w))
              <==> (HugeSlot(s.pages, s.root, w) ==>
                      || WholeStep(hd.virt, hd.phys, hd.size, 0, w)
                      || Walk(s.pages, s.root, w) == Some(RecordedLeaf(hd, w)))
    {
    }
  }

  /** A page keeps its translation exactly if it is not in the new area, or is lost, or the new region
      records the same. */
  lemma PageKeptExactly(s: Mem, size: nat, kind: AllocType, flags: nat, w: VPage)
    requires Sound(s) && AllocSafe(s, size, kind, flags)
    requires !Alloc(s, size, kind, flags).0.failed && Alloc(s, size, kind, flags).1 != 0
    ensures var s', hd := Alloc(s, size, kind, flags).0, NewHeader(s, size, kind, flags);
            Walk(s'.pages, s'.root, w) == Walk(s.pages, s.root, w)
            <==> || !InArea(hd, w)
                 || (HugeSlot(s.pages, s.root, w) && !WholeStep(hd.virt, hd.phys, hd.size, 0, w))
                 || Walk(s.pages, s.root, w) == Some(RecordedLeaf(hd, w))
  {
    hide Alloc, AllocSafe, NewHeader, Sound, TreeWalk, Walk, HugeSlot, WholeStep, InArea, RecordedLeaf;
    hide Recorded, Extends;
    AllocEffect(s, size, kind, flags);
    WalksFollowTrees(s);
    WalksFollowTrees(Alloc(s, size, kind, flags).0);
  }

  // ----- avmf_free

  predicate HasHeader(s: Mem, virt: nat) {
    exists h :: 0 <= h < |s.table.headers| && s.table.headers[h].Covers(virt)
  }

  lemma ReleasedPager(s: Mem, s1: Mem, h: nat)
    requires Sound(s) && Released(s, s1, h)
    ensures Sound(s1) && s1.pages == s.pages && s1.root == s.root
  {
    ReleaseKeepsRecords(s, s1, h);
    hide BooksOk, TreeOk, OwnersOk, Released, Live;
  }

  /** avmf_free of an address some header covers unmaps the page of the address, or its slot; any other
      free changes no translation. */
  lemma FreeEffect(s: Mem, virt: nat)
    requires Sound(s) && FreeRequestOk(s, virt)
    ensures var s' := Free(s, virt);
            && Sound(s') && s'.table.headers == s.table.headers
            && (forall w :: TreeWalk(s'.pages, s'.root, w)
                            == if HasHeader(s, virt) && Unmaps(s, virt, w) then None else TreeWalk(s.pages, s.root, w))
            && (forall w :: HugeSlot(s'.pages, s'.root, w)
                            == (HugeSlot(s.pages, s.root, w)
                                && !(HasHeader(s, virt) && PtNode(w) == PtNode(VPageOf(virt)))))
  {
    hide Free, Unmap, TreeWalk, HugeSlot, VPageOf, Released, BooksOk, TreeOk, OwnersOk, Live, TablesOk;
    if h: nat :| h < |s.table.headers| && s.table.headers[h].Covers(virt) {
      var s1 := FreeReleases(s, virt, h);
      ReleasedPager(s, s1, h);
      ReleaseKeepsRecords(s, s1, h);
      UnmapExact(s1, virt);
      UnmapKeepsOwners(s1, Unmap(s1, virt));
      forall w
        ensures Unmaps(s1, virt, w) <==> Unmaps(s, virt, w)
      {
      }
    } else {
      FreeOfNothing(s, virt);
    }
  }

  // ----- the page map

  /** A plain page map: where each page goes, and which pages lie in slots mapped whole. */
  datatype PageMap = PageMap(walk: VPage -> Option<Leaf>, whole: VPage -> bool)

  /** A region is mapped: its pages go where its header says, except pages of whole slots that are not
      set anew. */
  function Place(v: PageMap, hd: Header): PageMap {
    PageMap(w => if InArea(hd, w) && (v.whole(w) ==> WholeStep(hd.virt, hd.phys, hd.size, 0, w))
                 then Some(RecordedLeaf(hd, w)) else v.walk(w),
            w => v.whole(w) || WholeStep(hd.virt, hd.phys, hd.size, 0, w))
  }

  /** One page, or one whole slot, is unmapped. */
  function Erase(v: PageMap, u: VPage): PageMap {
    PageMap(w => if w == u || (v.whole(u) && PtNode(w) == PtNode(u)) then None else v.walk(w),
            w => v.whole(w) && PtNode(w) != PtNode(u))
  }

  /** What an operation does to the page map: a success of avmf_alloc places its header, a free of a
      recorded address erases its page. */
  function MapStep(s: Mem, v: PageMap, op: Op): PageMap {
    match op
    case DoAlloc(size, kind, flags) =>
      if Alloc(s, size, kind, flags).1 == 0 then v else Place(v, NewHeader(s, size, kind, flags))
    case DoFree(virt) => if HasHeader(s, virt) then Erase(v, VPageOf(virt)) else v
    case DoTranslate(_) => v
  }

  function MapRun(s: Mem, v: PageMap, ops: seq<Op>): PageMap
    decreases |ops|
  {
    if ops == [] then v else MapRun(Step(s, ops[0]), MapStep(s, v, ops[0]), ops[1..])
  }

  ghost predicate Shows(s: Mem, v: PageMap) {
    forall w :: TreeWalk(s.pages, s.root, w) == v.walk(w) && HugeSlot(s.pages, s.root, w) == v.whole(w)
  }

  ghost predicate OpSafe(s: Mem, op: Op) {
    match op
    case DoAlloc(size, kind, flags) => AllocSafe(s, size, kind, flags)
    case DoFree(virt) => FreeRequestOk(s, virt)
    case DoTranslate(virt) => true
  }

  ghost predicate RunSafe(s: Mem, ops: seq<Op>)
    decreases |ops|
  {
    ops == [] || (OpSafe(s, ops[0]) && RunSafe(Step(s, ops[0]), ops[1..]))
  }

  lemma StepShows(s: Mem, v: PageMap, op: Op)
    requires Sound(s) && Shows(s, v) && OpSafe(s, op) && !Step(s, op).failed
    ensures Sound(Step(s, op)) && Shows(Step(s, op), MapStep(s, v, op))
  {
    hide Alloc, Free, VirtToPhys, AllocSafe, FreeRequestOk, NewHeader, TreeWalk, HugeSlot, WholeStep, InArea;
    hide RecordedLeaf, Recorded, Extends, Sound, VPageOf, HasHeader;
    match op {
      case DoAlloc(size, kind, flags) =>
        AllocEffect(s, size, kind, flags);
        if Alloc(s, size, kind, flags).1 == 0 {
          SetAsideRuns(s, Step(s, op));
        }
      case DoFree(virt) =>
        FreeEffect(s, virt);
      case DoTranslate(virt) =>
        TranslateSound(s, virt);
    }
  }

  lemma TranslateSound(s: Mem, virt: nat)
    requires Sound(s)
    ensures Sound(s.(table := VirtToPhys(s.table, virt).0))
  {
    hide VirtToPhys, LedgerOk, HeadersOk, TreeOk;
  }

  /** After every run of operations, wherever the areas lie, as long as no lost entry hits a page table, the
      processor translates every page as the page map built by placing and erasing says. */
  lemma {:induction false} TablesFollowTheMap(s: Mem, v: PageMap, ops: seq<Op>)
    requires Sound(s) && Shows(s, v) && RunSafe(s, ops) && !RunOps(s, ops).failed
    ensures var s' := RunOps(s, ops);
            && Sound(s') && Shows(s', MapRun(s, v, ops))
            && forall w :: Walk(s'.pages, s'.root, w) == MapRun(s, v, ops).walk(w)
    decreases |ops|
  {
    hide Step, MapStep, OpSafe, TreeWalk, HugeSlot, BooksOk, TreeOk, OwnersOk, Walk;
    if ops == [] {
      forall w
        ensures Walk(s.pages, s.root, w) == v.walk(w)
      {
        WalkFollowsTree(s.pages, s.root, w);
      }
    } else {
      StepShows(s, v, ops[0]);
      TablesFollowTheMap(Step(s, ops[0]), MapStep(s, v, ops[0]), ops[1..]);
    }
  }

  // ----- which operation decides

  /** What an operation sets page w to, if it takes effect there: a place, or nothing. */
  function Touch(s: Mem, v: PageMap, op: Op, w: VPage): Option<Option<Leaf>> {
    match op
    case DoAlloc(size, kind, flags) =>
      var hd := NewHeader(s, size, kind, flags);
      if Alloc(s, size, kind, flags).1 != 0 && InArea(hd, w)
         && (v.whole(w) ==> WholeStep(hd.virt, hd.phys, hd.size, 0, w))
      then Some(Some(RecordedLeaf(hd, w))) else None
    case DoFree(virt) =>
      var u := VPageOf(virt);
      if HasHeader(s, virt) && (w == u || (v.whole(u) && PtNode(w) == PtNode(u))) then Some(None) else None
    case DoTranslate(_) => None
  }

  /** The last effect of a run on page w. */
  function LastTouch(s: Mem, v: PageMap, ops: seq<Op>, w: VPage): Option<Option<Leaf>>
    decreases |ops|
  {
    if ops == [] then None
    else
      var later := LastTouch(Step(s, ops[0]), MapStep(s, v, ops[0]), ops[1..], w);
      if later.Some? then later else Touch(s, v, ops[0], w)
  }

  lemma {:induction false} LastTouchDecides(s: Mem, v: PageMap, ops: seq<Op>, w: VPage)
    ensures MapRun(s, v, ops).walk(w)
            == match LastTouch(s, v, ops, w) case None => v.walk(w) case Some(place) => place
    decreases |ops|
  {
    hide Alloc, Step, NewHeader, InArea, WholeStep, RecordedLeaf, HasHeader, VPageOf;
    if ops != [] {
      LastTouchDecides(Step(s, ops[0]), MapStep(s, v, ops[0]), ops[1..], w);
    }
  }

  /** Over a run a page keeps its translation exactly if no operation takes effect on it, or the last one
      that does sets it to the same. */
  lemma PageKeptOverRuns(s: Mem, v: PageMap, ops: seq<Op>, w: VPage)
    requires Sound(s) && Shows(s, v) && RunSafe(s, ops) && !RunOps(s, ops).failed
    ensures var s' := RunOps(s, ops);
            Walk(s'.pages, s'.root, w) == Walk(s.pages, s.root, w)
            <==> LastTouch(s, v, ops, w) in {None, Some(Walk(s.pages, s.root, w))}
  {
    hide RunOps, MapRun, LastTouch, Walk, TreeWalk, HugeSlot, RunSafe;
    TablesFollowTheMap(s, v, ops);
    WalksFollowTrees(s);
    LastTouchDecides(s, v, ops, w);
  }
}
