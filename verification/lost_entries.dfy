/** Entries that pager_map writes into the first frame of a whole slot, when that frame is a page table:
    the page map with entries that hit PTs, and what an entry that hits a table above them leaves. */
module LostEntries {
  import opened Words
  import opened Regions
  import opened Paging
  import opened Addresses
  import opened MemoryState
  import opened Mapping
  import opened RangeMapping
  import opened Bookkeeping
  import opened PageMaps

  // ----- one step of pager_map_range

  /** An entry meant for page u, whose slot is mapped whole, lands on page w: the slot's first frame is the
      PT of w, and w has u's index there. */
  ghost predicate LandsOn(s: Mem, u: VPage, w: VPage) {
    && HugeSlot(s.pages, s.root, u) && w.i1 == u.i1
    && TableAt(s.pages, s.root, PtNode(w)) == Some(SlotFrame(s.pages, s.root, u))
  }

  /** What one step does to the page map. */
  ghost function MapOne(s: Mem, v: PageMap, virt: nat, phys: nat, flags: nat, whole: bool): PageMap {
    var u := VPageOf(virt);
    if whole then
      PageMap(w => if PtNode(w) == PtNode(u) then Some(Leaf(phys / PAGE_SIZE + w.i1, Attrs(flags))) else v.walk(w),
              w => PtNode(w) == PtNode(u) || v.whole(w))
    else
      v.(walk := w => if (if v.whole(u) then LandsOn(s, u, w) else w == u)
                      then Some(Leaf(phys / PAGE_SIZE, Attrs(flags))) else v.walk(w))
  }

  /** A 4 KiB step is not written into a table above the PTs. */
  ghost predicate StepKeepsTree(s: Mem, virt: nat, whole: bool) {
    whole || !HitsUpperTable(s, VPageOf(virt))
  }

  lemma MapOneExact(s: Mem, v: PageMap, virt: nat, phys: nat, flags: nat, whole: bool)
    requires PagerOk(s) && Shows(s, v) && phys < Pow2(s.physBits) && !Huge(flags)
    requires (whole ==> phys % SLOT_SIZE == 0) && StepKeepsTree(s, virt, whole)
    requires !MapPage(s, virt, phys, if whole then OrHuge(flags) else flags).failed
    ensures var s1 := MapPage(s, virt, phys, if whole then OrHuge(flags) else flags);
            PagerOk(s1) && Extends(s, s1) && Shows(s1, MapOne(s, v, virt, phys, flags, whole))
  {
    hide MapPage, TreeWalk, HugeSlot, VPageOf, PagerOk, Extends, Attrs, Pow2, SlotFrame, TableAt;
    var u := VPageOf(virt);
    if whole {
      MapHuge(s, virt, phys, flags);
      SlotOfFrame(phys);
    } else if !HugeSlot(s.pages, s.root, u) {
      MapSmall(s, virt, phys, flags);
    } else {
      LostOneExact(s, virt, phys, flags);
    }
  }

  lemma LostOneExact(s: Mem, virt: nat, phys: nat, flags: nat)
    requires PagerOk(s) && phys < Pow2(s.physBits) && !Huge(flags)
    requires HugeSlot(s.pages, s.root, VPageOf(virt)) && !HitsUpperTable(s, VPageOf(virt))
    ensures var s1 := MapPage(s, virt, phys, flags);
            && PagerOk(s1) && Extends(s, s1)
            && forall w :: HugeSlot(s1.pages, s1.root, w) == HugeSlot(s.pages, s.root, w)
                           && TreeWalk(s1.pages, s1.root, w)
                              == if LandsOn(s, VPageOf(virt), w) then Some(Leaf(phys / PAGE_SIZE, Attrs(flags)))
                                 else TreeWalk(s.pages, s.root, w)
  {
    hide MapPage, TreeWalk, HugeSlot, VPageOf, BooksOk, Attrs, Pow2, SlotFrame, TableAt, Behind;
    var u := VPageOf(virt);
    var frame := SlotFrame(s.pages, s.root, u);
    if q: Node :| TableAt(s.pages, s.root, q) == Some(frame) {
      NoDeeperTable(s.pages, s.root, q);
      LostIntoPt(s, virt, phys, flags, q);
      LostExtends(s, virt, phys, flags);
      forall w
        ensures LandsOn(s, u, w) <==> PtNode(w) == q && w.i1 == u.i1
      {
        assert TableAt(s.pages, s.root, PtNode(w)) == TableAt(s.pages, s.root, q) ==> PtNode(w) == q;
      }
    } else {
      LostWrite(s, virt, phys, flags);
    }
  }

  lemma LostExtends(s: Mem, virt: nat, phys: nat, flags: nat)
    requires TreeOk(s.pages, s.root) && phys < Pow2(s.physBits) && !Huge(flags)
    requires HugeSlot(s.pages, s.root, VPageOf(virt))
    ensures Extends(s, MapPage(s, virt, phys, flags))
  {
    LostEntry(s, virt, phys, flags);
    ExtendsItself(s);
    hide MapPage, Behind;
  }

  // ----- the loop

  ghost predicate LoopKeepsTree(s: Mem, virt: nat, phys: nat, size: nat, flags: nat, done: nat)
    decreases size - done
  {
    done < size ==>
      var whole := Promotes(virt, phys, size, done);
      var a, p := (virt + done) % TWO64, (phys + done) % TWO64;
      && StepKeepsTree(s, a, whole)
      && LoopKeepsTree(MapPage(s, a, p, if whole then OrHuge(flags) else flags), virt, phys, size, flags,
                       done + if whole then SLOT_SIZE else PAGE_SIZE)
  }

  ghost function MapLoop(s: Mem, v: PageMap, virt: nat, phys: nat, size: nat, flags: nat, done: nat): PageMap
    decreases size - done
  {
    if done >= size then v
    else
      var whole := Promotes(virt, phys, size, done);
      var a, p := (virt + done) % TWO64, (phys + done) % TWO64;
      MapLoop(MapPage(s, a, p, if whole then OrHuge(flags) else flags), MapOne(s, v, a, p, flags, whole),
              virt, phys, size, flags, done + if whole then SLOT_SIZE else PAGE_SIZE)
  }

  /** pager_map_range from page k on, entries that hit PTs included. */
  lemma {:induction false} MapLoopExact(s: Mem, v: PageMap, virt: nat, phys: nat, size: nat, flags: nat, k: nat)
    requires PagerOk(s) && RangeOk(s, virt, phys, size, flags) && Shows(s, v)
    requires LoopKeepsTree(s, virt, phys, size, flags, k * PAGE_SIZE)
    requires !MapRange(s, virt, phys, size, flags, k * PAGE_SIZE).failed
    ensures var s' := MapRange(s, virt, phys, size, flags, k * PAGE_SIZE);
            && PagerOk(s') && Extends(s, s')
            && Shows(s', MapLoop(s, v, virt, phys, size, flags, k * PAGE_SIZE))
    decreases PageCount(size) - k
  {
    hide MapPage, VPageOf, PageAddress, PagerOk, Extends, Attrs, Pow2, Shows, MapOne, StepKeepsTree;
    if k * PAGE_SIZE >= size {
      ExtendsItself(s);
      return;
    }
    StepAddresses(s, virt, phys, size, flags, k);
    var whole := Promotes(virt, phys, size, k * PAGE_SIZE);
    var a, p := PageAddress(virt, k), phys + k * PAGE_SIZE;
    var s1 := MapPage(s, a, p, if whole then OrHuge(flags) else flags);
    var mid := if whole then k + SLOT_PAGES else k + 1;
    assert k * PAGE_SIZE + (if whole then SLOT_SIZE else PAGE_SIZE) == mid * PAGE_SIZE;
    assert MapRange(s, virt, phys, size, flags, k * PAGE_SIZE)
        == MapRange(s1, virt, phys, size, flags, mid * PAGE_SIZE);
    MapOneExact(s, v, a, p, flags, whole);
    MapLoopExact(s1, MapOne(s, v, a, p, flags, whole), virt, phys, size, flags, mid);
    ExtendsTwice(s, s1, MapRange(s1, virt, phys, size, flags, mid * PAGE_SIZE));
  }

  // ----- every run whose entries keep the tree

  /** A request none of whose entries is written into a table above the PTs. */
  ghost predicate AllocKeepsTree(s: Mem, size: nat, kind: AllocType, flags: nat) {
    && Fits(s.heaps, size, kind) && !Huge(flags)
    && (Alloc(s, size, kind, flags).1 != 0 ==>
          var hd := NewHeader(s, size, kind, flags);
          LoopKeepsTree(AfterRecord(s, size, kind, flags), hd.virt, hd.phys, hd.size, hd.flags, 0))
  }

  ghost function MapAlloc(s: Mem, v: PageMap, size: nat, kind: AllocType, flags: nat): PageMap {
    if Alloc(s, size, kind, flags).1 == 0 then v
    else
      var hd := NewHeader(s, size, kind, flags);
      MapLoop(AfterRecord(s, size, kind, flags), v, hd.virt, hd.phys, hd.size, hd.flags, 0)
  }

  lemma MapAllocExact(s: Mem, v: PageMap, size: nat, kind: AllocType, flags: nat)
    requires Sound(s) && Shows(s, v) && AllocKeepsTree(s, size, kind, flags)
    requires !Alloc(s, size, kind, flags).0.failed
    ensures var s' := Alloc(s, size, kind, flags).0; Sound(s') && Shows(s', MapAlloc(s, v, size, kind, flags))
  {
    hide Alloc, MapRange, OwnersOk, BooksOk, TablesOk, NewHeader, AfterRecord, Recorded, SetAside, LoopKeepsTree;
    hide MapLoop, TreeWalk, HugeSlot, Extends;
    AllocOutcome(s, size, kind, flags);
    var s' := Alloc(s, size, kind, flags).0;
    if Alloc(s, size, kind, flags).1 == 0 {
      SetAsideSound(s, s');
      SetAsideRuns(s, s');
    } else {
      var s2, hd := AfterRecord(s, size, kind, flags), NewHeader(s, size, kind, flags);
      NewHeaderFlags(s, size, kind, flags);
      RecordedPager(s, s2, hd);
      RecordedRangeOk(s, s2, hd);
      RecordedOwners(s, s2, hd);
      RecordedShows(s, s2, hd, v);
      MapLoopExact(s2, v, hd.virt, hd.phys, hd.size, hd.flags, 0);
      ExtendedOwners(s2, s');
    }
  }

  lemma NewHeaderFlags(s: Mem, size: nat, kind: AllocType, flags: nat)
    ensures NewHeader(s, size, kind, flags).flags == flags
  {
  }

  lemma RecordedShows(s: Mem, s2: Mem, hd: Header, v: PageMap)
    requires Recorded(s, s2, hd) && Shows(s, v)
    ensures Shows(s2, v) && s2.loaded == s.loaded && s2.root == s.root
  {
    hide TreeWalk, HugeSlot, BooksOk;
  }

  ghost predicate OpKeepsTree(s: Mem, op: Op) {
    match op
    case DoAlloc(size, kind, flags) => AllocKeepsTree(s, size, kind, flags)
    case DoFree(virt) => FreeRequestOk(s, virt)
    case DoTranslate(_) => true
  }

  ghost function OpMap(s: Mem, v: PageMap, op: Op): PageMap {
    match op
    case DoAlloc(size, kind, flags) => MapAlloc(s, v, size, kind, flags)
    case DoFree(virt) => if HasHeader(s, virt) then Erase(v, VPageOf(virt)) else v
    case DoTranslate(_) => v
  }

  ghost predicate RunKeepsTree(s: Mem, ops: seq<Op>)
    decreases |ops|
  {
    ops == [] || (OpKeepsTree(s, ops[0]) && RunKeepsTree(Step(s, ops[0]), ops[1..]))
  }

  ghost function RunMap(s: Mem, v: PageMap, ops: seq<Op>): PageMap
    decreases |ops|
  {
    if ops == [] then v else RunMap(Step(s, ops[0]), OpMap(s, v, ops[0]), ops[1..])
  }

  lemma OpMapExact(s: Mem, v: PageMap, op: Op)
    requires Sound(s) && Shows(s, v) && OpKeepsTree(s, op) && !Step(s, op).failed
    ensures Sound(Step(s, op)) && Shows(Step(s, op), OpMap(s, v, op))
  {
    hide Alloc, Free, VirtToPhys, AllocKeepsTree, MapAlloc, FreeRequestOk, TreeWalk, HugeSlot, Sound, VPageOf;
    hide HasHeader;
    match op {
      case DoAlloc(size, kind, flags) => MapAllocExact(s, v, size, kind, flags);
      case DoFree(virt) => FreeEffect(s, virt);
      case DoTranslate(virt) => TranslateSound(s, virt);
    }
  }

  /** After every run none of whose entries is written into a table above the PTs, the processor translates
      every page as the page map built step by step says. */
  lemma {:induction false} TablesFollowTheSteps(s: Mem, v: PageMap, ops: seq<Op>)
    requires Sound(s) && Shows(s, v) && RunKeepsTree(s, ops) && !RunOps(s, ops).failed
    ensures var s' := RunOps(s, ops);
            Sound(s') && forall w :: Walk(s'.pages, s'.root, w) == RunMap(s, v, ops).walk(w)
    decreases |ops|
  {
    hide Step, OpMap, OpKeepsTree, TreeWalk, HugeSlot, Sound, Walk;
    if ops == [] {
      WalksFollowTrees(s);
    } else {
      OpMapExact(s, v, ops[0]);
      TablesFollowTheSteps(Step(s, ops[0]), OpMap(s, v, ops[0]), ops[1..]);
    }
  }

  // ----- an entry that hits a table above the PTs

  function IndexAt(v: VPage, depth: nat): Index {
    if depth == 0 then v.i4 else if depth == 1 then v.i3 else if depth == 2 then v.i2 else v.i1
  }

  /** The processor's walk from a table at some depth on. */
  function WalkFrom(m: Memory, table: nat, depth: nat, v: VPage): Option<Leaf>
    requires depth <= 3
    decreases 3 - depth
  {
    var e := Entry(m, table, IndexAt(v, depth));
    if !Present(e) then None
    else if depth == 3 then Some(SmallLeaf(e))
    else if depth == 2 && Huge(e) then Some(HugeLeaf(e, v.i1))
    else if depth == 1 && Huge(e) then Some(GiantLeaf(e, v.i2, v.i1))
    else WalkFrom(m, Frame(e) % FRAME_LIMIT, depth + 1, v)
  }

  lemma WalkIsWalkFrom(m: Memory, cr3: nat, v: VPage)
    ensures Walk(m, cr3, v) == WalkFrom(m, cr3, 0, v)
  {
    var e4 := Entry(m, cr3, v.i4);
    var e3 := Entry(m, Frame(e4) % FRAME_LIMIT, v.i3);
    var e2 := Entry(m, Frame(e3) % FRAME_LIMIT, v.i2);
    hide Entry, Frame, Present, Huge;
    WalkStep(m, cr3, 0, v);
    WalkStep(m, Frame(e4) % FRAME_LIMIT, 1, v);
    WalkStep(m, Frame(e3) % FRAME_LIMIT, 2, v);
    WalkStep(m, Frame(e2) % FRAME_LIMIT, 3, v);
  }

  lemma WalkStep(m: Memory, table: nat, depth: nat, v: VPage)
    requires depth <= 3
    ensures var e := Entry(m, table, IndexAt(v, depth));
            WalkFrom(m, table, depth, v)
            == if !Present(e) then None
               else if depth == 3 then Some(SmallLeaf(e))
               else if depth == 2 && Huge(e) then Some(HugeLeaf(e, v.i1))
               else if depth == 1 && Huge(e) then Some(GiantLeaf(e, v.i2, v.i1))
               else WalkFrom(m, Frame(e) % FRAME_LIMIT, depth + 1, v)
  {
  }

  function NodeAt(v: VPage, depth: nat): (q: Node)
    requires depth <= 3
    ensures q.Depth() == depth
  {
    if depth == 0 then Root else if depth == 1 then PdptNode(v) else if depth == 2 then PdNode(v) else PtNode(v)
  }

  /** The walk of page w reads entry i of the table at q. */
  predicate Uses(w: VPage, q: Node, i: Index)
    requires q.Depth() <= 3
  {
    NodeAt(w, q.Depth()) == q && IndexAt(w, q.Depth()) == i
  }

  /** Where an entry of a table is overwritten, the walks that do not use it stay. */
  lemma {:induction false} UnusedEntry(m: Memory, root: nat, q: Node, i: Index, e: nat, w: VPage, depth: nat)
    requires TreeOk(m, root) && TableAt(m, root, q).Some? && q.Depth() <= 3 && depth <= 3 && !Uses(w, q, i)
    requires TableAt(m, root, NodeAt(w, depth)).Some?
    ensures var t, m' := TableAt(m, root, NodeAt(w, depth)).value, Store(m, TableAt(m, root, q).value, i, e);
            WalkFrom(m', t, depth, w) == WalkFrom(m, t, depth, w)
    decreases 3 - depth
  {
    hide TableAt, Present, Huge, Frame, Store, Entry;
    var p := NodeAt(w, depth);
    var t, m' := TableAt(m, root, p).value, Store(m, TableAt(m, root, q).value, i, e);
    SameEntry(m, root, q, i, e, w, depth);
    WalkStep(m, t, depth, w);
    WalkStep(m', t, depth, w);
    if depth < 3 {
      TreeLevel(m, root, p, IndexAt(w, depth));
      assert NodeAt(w, depth + 1) == Child(p, IndexAt(w, depth));
      if TableAt(m, root, NodeAt(w, depth + 1)).Some? {
        UnusedEntry(m, root, q, i, e, w, depth + 1);
      }
    }
  }

  lemma SameEntry(m: Memory, root: nat, q: Node, i: Index, e: nat, w: VPage, depth: nat)
    requires TreeOk(m, root) && TableAt(m, root, q).Some? && q.Depth() <= 3 && depth <= 3 && !Uses(w, q, i)
    requires TableAt(m, root, NodeAt(w, depth)).Some?
    ensures var t, m' := TableAt(m, root, NodeAt(w, depth)).value, Store(m, TableAt(m, root, q).value, i, e);
            Entry(m', t, IndexAt(w, depth)) == Entry(m, t, IndexAt(w, depth))
  {
    var p := NodeAt(w, depth);
    assert TableAt(m, root, p) == TableAt(m, root, q) ==> p == q;
    hide TableAt;
  }

  /** A walk reads the tables of its path in turn, as far as they are there. */
  lemma {:induction false} WalkReaches(m: Memory, root: nat, q: Node, i: Index, e: nat, w: VPage, depth: nat)
    requires TreeOk(m, root) && TableAt(m, root, q).Some? && depth <= q.Depth() <= 3 && NodeAt(w, q.Depth()) == q
    ensures TableAt(m, root, NodeAt(w, depth)).Some?
    ensures var m' := Store(m, TableAt(m, root, q).value, i, e);
            Walk(m', root, w) == WalkFrom(m', TableAt(m, root, NodeAt(w, depth)).value, depth, w)
    decreases depth
  {
    hide Present, Huge, Frame, Store, Entry, Walk;
    var m' := Store(m, TableAt(m, root, q).value, i, e);
    PathIsThere(m, root, w, q.Depth(), depth);
    if depth == 0 {
      WalkIsWalkFrom(m', root, w);
    } else {
      WalkReaches(m, root, q, i, e, w, depth - 1);
      var p := NodeAt(w, depth - 1);
      assert NodeAt(w, depth) == Child(p, IndexAt(w, depth - 1));
      TreeLevel(m, root, p, IndexAt(w, depth - 1));
      EntryAbove(m, root, q, i, e, p, IndexAt(w, depth - 1));
      WalkStep(m', TableAt(m, root, p).value, depth - 1, w);
      hide TableAt;
    }
  }

  lemma {:induction false} PathIsThere(m: Memory, root: nat, w: VPage, far: nat, near: nat)
    requires near <= far <= 3 && TableAt(m, root, NodeAt(w, far)).Some?
    ensures TableAt(m, root, NodeAt(w, near)).Some?
    decreases far
  {
    if near < far {
      assert NodeAt(w, far) == Child(NodeAt(w, far - 1), IndexAt(w, far - 1));
      PathIsThere(m, root, w, far - 1, near);
    }
  }

  lemma EntryAbove(m: Memory, root: nat, q: Node, i: Index, e: nat, p: Node, j: Index)
    requires TreeOk(m, root) && TableAt(m, root, q).Some? && TableAt(m, root, p).Some? && p != q
    ensures Entry(Store(m, TableAt(m, root, q).value, i, e), TableAt(m, root, p).value, j)
            == Entry(m, TableAt(m, root, p).value, j)
  {
    hide TableAt;
  }

  /** An entry written into a table above the PTs, seen by the processor: a page whose walk does not use the
      entry stays; any other goes on from the frame that was to be mapped, as if that held a table. */
  lemma UpperHitExact(s: Mem, virt: nat, phys: nat, flags: nat, q: Node, w: VPage)
    requires PagerOk(s) && phys < Pow2(s.physBits) && !Huge(flags) && q.Depth() < 3
    requires HugeSlot(s.pages, s.root, VPageOf(virt))
    requires TableAt(s.pages, s.root, q) == Some(SlotFrame(s.pages, s.root, VPageOf(virt)))
    ensures var s' := MapPage(s, virt, phys, flags);
            Walk(s'.pages, s'.root, w)
            == if Uses(w, q, VPageOf(virt).i1) then WalkFrom(s'.pages, phys / PAGE_SIZE, q.Depth() + 1, w)
               else Walk(s.pages, s.root, w)
  {
    hide MapPage, VPageOf, SlotFrame, Store, LedgerOk, HeadersOk, TreeOk, HugeSlot, Pow2, Walk, SmallEntry, TableAt;
    LostEntry(s, virt, phys, flags);
    PhysFits(s.physBits, phys);
    EntryWalk(s.pages, s.root, q, VPageOf(virt).i1, phys, flags, w);
  }

  lemma EntryWalk(m: Memory, root: nat, q: Node, i: Index, phys: nat, flags: nat, w: VPage)
    requires TreeOk(m, root) && TableAt(m, root, q).Some? && q.Depth() < 3 && phys < ENTRY_LIMIT && !Huge(flags)
    ensures var m' := Store(m, TableAt(m, root, q).value, i, SmallEntry(phys, flags));
            Walk(m', root, w) == if Uses(w, q, i) then WalkFrom(m', phys / PAGE_SIZE, q.Depth() + 1, w)
                                 else Walk(m, root, w)
  {
    hide Store, TreeOk, Walk, SmallEntry, TableAt, Present, Huge, Frame;
    var e := SmallEntry(phys, flags);
    var m' := Store(m, TableAt(m, root, q).value, i, e);
    if Uses(w, q, i) {
      WalkReaches(m, root, q, i, e, w, q.Depth());
      WalkStep(m', TableAt(m, root, q).value, q.Depth(), w);
      SmallEntryFields(phys, flags);
      assert phys / PAGE_SIZE % FRAME_LIMIT == phys / PAGE_SIZE;
    } else {
      RootTable(m, root);
      UnusedEntry(m, root, q, i, e, w, 0);
      WalkIsWalkFrom(m, root, w);
      WalkIsWalkFrom(m', root, w);
    }
  }

  lemma RootTable(m: Memory, root: nat)
    ensures TableAt(m, root, Root) == Some(root)
  {
  }
}
