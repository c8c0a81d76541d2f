/** The main results about the memory manager, over every run. */
module AvmfTheorems {
  import opened Words
  import opened Regions
  import opened Paging
  import opened Addresses
  import opened MemoryState
  import opened Mapping
  import opened Unmapping
  import opened Bookkeeping
  import opened PageMaps
  import opened AvmfRuns
  import opened AvmfSafety

  /** What the clients of avmf.c may ask for in a state. */
  ghost predicate OpOk(s: Mem, op: Op) {
    match op
    case DoAlloc(size, kind, flags) => AllocRequestOk(s, size, kind, flags)
    case DoFree(virt) => FreeRequestOk(s, virt)
    case DoTranslate(virt) => true
  }

  ghost predicate RunOk(s: Mem, ops: seq<Op>)
    decreases |ops|
  {
    ops == [] || (OpOk(s, ops[0]) && RunOk(Step(s, ops[0]), ops[1..]))
  }

  /** No operation of the run frees an address of header h's area. */
  predicate Spares(hd: Header, ops: seq<Op>) {
    forall k :: 0 <= k < |ops| && ops[k].DoFree? ==> !hd.Covers(ops[k].virt)
  }

  ghost predicate LiveStay(s: Mem, s': Mem, op: Op) {
    forall h: nat :: Live(s, h) && h < |s.table.headers| && Spares(s.table.headers[h], [op]) ==> Live(s', h)
  }

  lemma StepKeepsInv(s: Mem, op: Op)
    requires Inv(s) && OpOk(s, op) && !Step(s, op).failed
    ensures var s' := Step(s, op);
            && Inv(s') && s.table.headers <= s'.table.headers
            && TableRunsStay(s, s') && LiveStay(s, s', op) && SystemStays(s, s')
  {
    var s' := Step(s, op);
    match op {
      case DoAlloc(size, kind, flags) =>
        AllocKeepsInv(s, size, kind, flags);
        hide Inv, Alloc;
        forall h: nat | Live(s, h)
          ensures Live(s', h)
        {
          LiveIsPrefix(s, s', h);
        }
      case DoFree(virt) =>
        FreeKeepsInv(s, virt);
        hide Inv, Free, Live;
        forall h: nat | Live(s, h) && h < |s.table.headers| && Spares(s.table.headers[h], [op])
          ensures Live(s', h)
        {
          assert [op][0].DoFree?;
        }
      case DoTranslate(virt) =>
        TranslateKeepsInv(s, virt);
    }
  }

  lemma TranslateKeepsInv(s: Mem, virt: nat)
    requires Inv(s)
    ensures Inv(s.(table := VirtToPhys(s.table, virt).0))
  {
    TranslateSound(s, virt);
    hide VirtToPhys, PagerOk, OwnersOk, RegionMapped, InRegion, HugeSlot, AreasOk;
  }

  /** The invariant holds after every run in which no page-table allocation fails. */
  lemma {:induction false} RunsKeepInv(s: Mem, ops: seq<Op>)
    requires Inv(s) && RunOk(s, ops) && !RunOps(s, ops).failed
    ensures var s' := RunOps(s, ops);
            && Inv(s') && s.table.headers <= s'.table.headers && TableRunsStay(s, s') && SystemStays(s, s')
            && forall h: nat :: Live(s, h) && h < |s.table.headers| && Spares(s.table.headers[h], ops) ==> Live(s', h)
    decreases |ops|
  {
    hide Inv, OpOk, Step, Live, TreeWalk, SystemPage;
    if ops != [] {
      StepKeepsInv(s, ops[0]);
      var s1 := Step(s, ops[0]);
      RunsKeepInv(s1, ops[1..]);
      forall h: nat | Live(s, h) && h < |s.table.headers| && Spares(s.table.headers[h], ops)
        ensures Live(RunOps(s, ops), h)
      {
        var hd := s.table.headers[h];
        assert s1.table.headers[h] == hd;
        SparesParts(hd, ops);
      }
    }
  }

  /** Runs of such requests are runs for the books and for the page map. */
  lemma {:induction false} GoodRunsAreSafe(s: Mem, ops: seq<Op>)
    requires Inv(s) && RunOk(s, ops) && !RunOps(s, ops).failed
    ensures RunFits(s, ops) && RunSafe(s, ops)
    decreases |ops|
  {
    hide Inv, Step, Alloc, AllocSafe, Fits, FreeRequestOk, ClearOfSystem;
    if ops != [] {
      match ops[0] {
        case DoAlloc(size, kind, flags) => ClearRequestIsSafe(s, size, kind, flags);
        case DoFree(virt) =>
        case DoTranslate(virt) =>
      }
      StepKeepsInv(s, ops[0]);
      GoodRunsAreSafe(Step(s, ops[0]), ops[1..]);
    }
  }

  lemma SparesParts(hd: Header, ops: seq<Op>)
    requires ops != [] && Spares(hd, ops)
    ensures Spares(hd, [ops[0]]) && Spares(hd, ops[1..])
  {
    forall k | 0 <= k < |ops[1..]| && ops[1..][k].DoFree?
      ensures !hd.Covers(ops[1..][k].virt)
    {
      assert ops[1..][k] == ops[k + 1];
    }
  }

  /** At every address of a live region the processor's page walk and the header records give the
      same physical address. */
  lemma RecordsMatchTables(s: Mem, h: nat, a: nat)
    requires Inv(s) && Live(s, h) && h < |s.table.headers|
    requires s.table.headers[h].virt <= a < s.table.headers[h].virt + s.table.headers[h].size
    ensures var p := s.table.headers[h].phys + (a - s.table.headers[h].virt);
            Translate(s.pages, s.root, a) == Some(p) && VirtToPhys(s.table, a).1 == p
  {
    var hd := s.table.headers[h];
    LiveRegion(s, h);
    HeaderTranslates(s.heaps, s.table, h, a);
    HeaderBounds(s.heaps, s.table.headers, h);
    OffsetOfAddress(hd.virt, a);
    RegionWalk(s, hd, VPageOf(a));
    hide Inv, Live, Walk, VPageOf, Offset, TreeOk, HeadersOk;
  }

  lemma LiveRegion(s: Mem, h: nat)
    requires Inv(s) && Live(s, h) && h < |s.table.headers|
    ensures var hd := s.table.headers[h];
            && RegionMapped(s.pages, s.root, hd) && hd.phys % PAGE_SIZE == 0
            && hd.size == RegionPages(hd) * PAGE_SIZE && RegionPages(hd) <= SPACE_PAGES
            && PagerOk(s) && OwnersOk(s)
  {
    hide RegionMapped, HeadersOk, TablesOk, HugeSlotsOk, AreasOk;
    var k :| 0 <= k < |s.runs| && s.runs[k].owner == Client(h);
    assert RunOfHeader(s.runs[k], s.table.headers[h]);
  }

  lemma RegionWalk(s: Mem, hd: Header, v: VPage)
    requires PagerOk(s) && RegionMapped(s.pages, s.root, hd) && Offset(hd.virt, v) < RegionPages(hd)
    ensures Walk(s.pages, s.root, v) == Some(Leaf(hd.phys / PAGE_SIZE + Offset(hd.virt, v), Attrs(hd.flags)))
  {
    WalkFollowsTree(s.pages, s.root, v);
    hide Offset, Attrs, Walk, TreeWalk, TreeOk, LedgerOk, HeadersOk;
  }

  lemma PageDifference(virt: nat, a: nat)
    requires virt % PAGE_SIZE == 0 && virt <= a < virt + SPACE_PAGES * PAGE_SIZE
    ensures (a - virt) / PAGE_SIZE == a / PAGE_SIZE - virt / PAGE_SIZE < SPACE_PAGES
    ensures a == virt + (a - virt) / PAGE_SIZE * PAGE_SIZE + a % PAGE_SIZE
  {
  }

  lemma OffsetOfAddress(virt: nat, a: nat)
    requires virt % PAGE_SIZE == 0 && virt <= a < virt + SPACE_PAGES * PAGE_SIZE
    ensures Offset(virt, VPageOf(a)) == (a - virt) / PAGE_SIZE
    ensures a == virt + (a - virt) / PAGE_SIZE * PAGE_SIZE + a % PAGE_SIZE
  {
    hide VPageOf, VNum;
    VNumOf(a);
    PageDifference(virt, a);
    PagesBetween(virt / PAGE_SIZE, a / PAGE_SIZE);
  }

  lemma PagesBetween(p: nat, q: nat)
    requires p <= q < p + SPACE_PAGES
    ensures (q % SPACE_PAGES - p) % SPACE_PAGES == q - p
  {
    var d := q - p;
    assert q == p + d;
    SubtractModSpace(q % SPACE_PAGES, p, d);
  }

  /** ... and no run of operations that spares the region changes that. */
  lemma RegionsSurviveRuns(s: Mem, ops: seq<Op>, h: nat, a: nat)
    requires Inv(s) && RunOk(s, ops) && !RunOps(s, ops).failed
    requires Live(s, h) && h < |s.table.headers| && Spares(s.table.headers[h], ops)
    requires s.table.headers[h].virt <= a < s.table.headers[h].virt + s.table.headers[h].size
    ensures var s' := RunOps(s, ops);
            var p := s.table.headers[h].phys + (a - s.table.headers[h].virt);
            && Translate(s'.pages, s'.root, a) == Translate(s.pages, s.root, a) == Some(p)
            && VirtToPhys(s'.table, a).1 == VirtToPhys(s.table, a).1 == p
  {
    hide Inv, Live, RunOk, RunOps, Translate, VirtToPhys, Spares;
    RunsKeepInv(s, ops);
    RecordsMatchTables(s, h, a);
    var s' := RunOps(s, ops);
    assert s'.table.headers[h] == s.table.headers[h];
    RecordsMatchTables(s', h, a);
  }

  // ----- what a free leaves mapped

  /** avmf_free removes one page, or one 2 MiB slot, from the translation and nothing else. */
  lemma FreeUnmapsOnce(s: Mem, virt: nat)
    requires Sound(s) && FreeRequestOk(s, virt)
    ensures var s' := Free(s, virt);
            forall w :: Walk(s'.pages, s'.root, w)
                        == if HasHeader(s, virt) && Unmaps(s, virt, w) then None else Walk(s.pages, s.root, w)
  {
    hide Free, Walk, TreeWalk, Sound, HugeSlot, VPageOf, Unmaps, HasHeader;
    FreeEffect(s, virt);
    WalksFollowTrees(s);
    WalksFollowTrees(Free(s, virt));
  }

  /** The whole memory of a freed region may be handed out again; the pages of the region that the one
      unmap does not reach still go there. */
  lemma FreeLeavesPages(s: Mem, virt: nat, h: nat, w: VPage)
    requires Inv(s) && h < |s.table.headers| && Live(s, h) && s.table.headers[h].Covers(virt)
    requires InArea(s.table.headers[h], w)
    ensures var s' := Free(s, virt);
            var leaf := RecordedLeaf(s.table.headers[h], w);
            && leaf.frame !in s'.phys.used
            && Walk(s.pages, s.root, w) == Some(leaf)
            && Walk(s'.pages, s'.root, w) == if Unmaps(s, virt, w) then None else Some(leaf)
  {
    hide Inv, Free, Unmap, Walk, TreeWalk, Live, VPageOf, Unmaps, Released, Offset, Sound;
    InvParts(s);
    OnlyHeader(s, h, virt);
    FreeUnmapsOnce(s, virt);
    LiveRegion(s, h);
    var s1 := FreeReleases(s, virt, h);
    ReleaseKeepsRecords(s, s1, h);
    UnmapLeavesRecords(s1, virt);
    WalksFollowTrees(s);
    assert 0 <= Offset(s.table.headers[h].virt, w) < RegionPages(s.table.headers[h]);
  }

  /** Freeing an address of a live region is a request a client may make. */
  lemma OnlyHeader(s: Mem, h: nat, virt: nat)
    requires Inv(s) && h < |s.table.headers| && Live(s, h) && s.table.headers[h].Covers(virt)
    ensures FreeRequestOk(s, virt) && HasHeader(s, virt)
  {
    forall g | 0 <= g < |s.table.headers| && s.table.headers[g].Covers(virt)
      ensures g == h
    {
      CoveredOnce(s.heaps, s.table.headers, g, h, virt);
    }
    hide Inv, Live;
  }

  /** After a free no page of the region is mapped exactly if the region is one page, or is one 2 MiB slot
      mapped whole. */
  lemma FreeUnmapsRegionExactly(s: Mem, virt: nat, h: nat)
    requires Inv(s) && h < |s.table.headers| && Live(s, h) && s.table.headers[h].Covers(virt)
    ensures var s', hd := Free(s, virt), s.table.headers[h];
            (forall w :: InArea(hd, w) ==> Walk(s'.pages, s'.root, w).None?)
            <==> RegionPages(hd) == 1
                 || (RegionPages(hd) == SLOT_PAGES && HugeSlot(s.pages, s.root, VPageOf(virt)))
  {
    hide Inv, Free, Walk, Live, VPageOf, HugeSlot, Offset, RecordedLeaf;
    var s', hd := Free(s, virt), s.table.headers[h];
    forall w | InArea(hd, w)
      ensures Walk(s'.pages, s'.root, w).None? <==> Unmaps(s, virt, w)
    {
      FreeLeavesPages(s, virt, h, w);
    }
    UnmapsWholeRegion(s, virt, h);
  }

  lemma UnmapsWholeRegion(s: Mem, virt: nat, h: nat)
    requires Inv(s) && h < |s.table.headers| && s.table.headers[h].Covers(virt)
    ensures var hd := s.table.headers[h];
            (forall w :: InArea(hd, w) ==> Unmaps(s, virt, w))
            <==> RegionPages(hd) == 1
                 || (RegionPages(hd) == SLOT_PAGES && HugeSlot(s.pages, s.root, VPageOf(virt)))
  {
    hide Inv, VPageOf, HugeSlot, Offset, VNum, FirstNum;
    var hd, v := s.table.headers[h], VPageOf(virt);
    var n, f := RegionPages(hd), FirstNum(hd.virt);
    RegionNumbers(s, h);
    InvParts(s);
    CoveredPage(s, virt, h);
    if HugeSlot(s.pages, s.root, v) {
      var start, end := v.(i1 := 0), v.(i1 := 511);
      SlotOfRegion(s, h, v, start);
      SlotOfRegion(s, h, v, end);
      forall w
        ensures PtNode(w) == PtNode(v) <==> VNum(start) <= VNum(w) < VNum(start) + SLOT_PAGES
        ensures VNum(end) == VNum(start) + 511
      {
        SlotNumbers(start, w);
        SlotNumbers(start, end);
      }
      if n != SLOT_PAGES {
        var w := if f < VNum(start) then PageNumbered(f) else PageNumbered(f + n - 1);
        assert InArea(hd, w) && !Unmaps(s, virt, w);
      }
    } else if n != 1 {
      var w := if VNum(v) != f then PageNumbered(f) else PageNumbered(f + 1);
      assert InArea(hd, w) && w != v;
    } else {
      forall w | InArea(hd, w)
        ensures w == v
      {
        VNumInjective(w, v);
      }
    }
  }

  /** A region's pages are consecutive page numbers. */
  lemma RegionNumbers(s: Mem, h: nat)
    requires Inv(s) && h < |s.table.headers|
    ensures var hd := s.table.headers[h];
            && RegionPages(hd) >= 1 && FirstNum(hd.virt) + RegionPages(hd) <= SPACE_PAGES
            && forall w :: InArea(hd, w) <==> FirstNum(hd.virt) <= VNum(w) < FirstNum(hd.virt) + RegionPages(hd)
  {
    hide Offset, VNum, FirstNum, LedgerOk, TablesOk, OwnersOk, RegionsOk, HugeSlotsOk;
    var hd := s.table.headers[h];
    assert hd.size == RegionPages(hd) * PAGE_SIZE && hd.virt % PAGE_SIZE == 0 && ClearOfSystem(hd.virt, hd.size);
    forall w
      ensures InArea(hd, w) <==> FirstNum(hd.virt) <= VNum(w) < FirstNum(hd.virt) + RegionPages(hd)
      ensures FirstNum(hd.virt) + RegionPages(hd) <= SPACE_PAGES
    {
      AreaIsInterval(hd.virt, RegionPages(hd), w);
    }
    assert InArea(hd, VPage(0, 0, 0, 0)) || !InArea(hd, VPage(0, 0, 0, 0));
  }

  function PageNumbered(n: nat): (w: VPage)
    requires n < SPACE_PAGES
    ensures VNum(w) == n
  {
    VNumOf(n * PAGE_SIZE);
    VPageOf(n * PAGE_SIZE)
  }
}
