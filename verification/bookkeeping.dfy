/** What every run of the memory manager keeps of its books (bits, runs, heaps, headers, owners), whatever
    is in table memory. */
module Bookkeeping {
  import opened Words
  import opened Physical
  import opened Regions
  import opened MemoryState
  import opened Mapping

  function RegionPages(hd: Header): nat { hd.size / PAGE_SIZE }

  ghost predicate RunOfHeader(run: Run, hd: Header) {
    hd.phys == run.start * PAGE_SIZE && hd.size == run.len * PAGE_SIZE
  }

  /** Every run held by a client is the memory of its header, and no header has two. */
  ghost predicate OwnersOk(s: Mem) {
    && (forall k :: 0 <= k < |s.runs| && s.runs[k].owner.Client? ==>
                      var h := s.runs[k].owner.header;
                      h < |s.table.headers| && RunOfHeader(s.runs[k], s.table.headers[h]))
    && (forall i, j :: 0 <= i < j < |s.runs| && s.runs[i].owner.Client? ==> s.runs[i].owner != s.runs[j].owner)
  }

  ghost predicate RecordsOk(s: Mem) { BooksOk(s) && OwnersOk(s) }

  ghost predicate Live(s: Mem, h: nat) {
    exists k :: 0 <= k < |s.runs| && s.runs[k].owner == Client(h)
  }

  // ----- avmf_alloc

  /** The header avmf_alloc records, if it gets that far. */
  function NewHeader(s: Mem, size: nat, kind: AllocType, flags: nat): Header {
    Header(AllocVirt(s.heaps, size, kind).1, AllocPhys(s.phys, Align4k(size)).1, Align4k(size), flags)
  }

  /** The state in which it calls pager_map_range. */
  function AfterRecord(s: Mem, size: nat, kind: AllocType, flags: nat): Mem {
    var hd := NewHeader(s, size, kind, flags);
    s.(heaps := AllocVirt(s.heaps, size, kind).0, phys := AllocPhys(s.phys, Align4k(size)).0,
       table := s.table.(headers := s.table.headers + [hd]),
       runs := s.runs + [Run(hd.phys / PAGE_SIZE, RegionPages(hd), Client(|s.table.headers|))])
  }

  /** A header just recorded, with the run of pages it stands for. */
  ghost predicate Recorded(s: Mem, s2: Mem, hd: Header) {
    && BooksOk(s2) && s2.root == s.root && s2.loaded == s.loaded && s2.physBits == s.physBits
    && s2.pages == s.pages
    && s2.table.headers == s.table.headers + [hd]
    && hd.size > 0 && hd.size % PAGE_SIZE == 0 && hd.phys > 0 && hd.phys % PAGE_SIZE == 0
    && hd.phys + hd.size <= BITMAP_PAGES * PAGE_SIZE
    && s2.runs == s.runs + [Run(hd.phys / PAGE_SIZE, RegionPages(hd), Client(|s.table.headers|))]
  }

  /** What avmf_alloc leaves when it fails: the heap may have moved, and a run may be stranded. */
  ghost predicate SetAside(s: Mem, s': Mem) {
    && BooksOk(s') && s' == s.(heaps := s'.heaps, phys := s'.phys, runs := s'.runs)
    && (s'.runs == s.runs
        || (|s'.runs| == |s.runs| + 1 && s.runs <= s'.runs && s'.runs[|s.runs|].owner == Stranded))
  }

  lemma AlignedAgain(size: nat)
    requires 0 < size && size + PAGE_SIZE <= TWO64
    ensures Align4k(Align4k(size)) == Align4k(size)
    ensures 0 < Align4k(size) && Align4k(size) + PAGE_SIZE <= TWO64 + PAGE_SIZE
    ensures Align4k(size) < TWO64 ==> Align4k(size) + PAGE_SIZE <= TWO64
  {
  }

  /** The moment between avmf_alloc_region and pager_map_range. */
  lemma RecordedNow(s: Mem, size: nat, kind: AllocType, flags: nat)
    requires BooksOk(s) && Fits(s.heaps, size, kind)
    requires |s.table.headers| < STATIC_HEADERS && AllocVirt(s.heaps, size, kind).1 != 0
    requires AllocPhys(s.phys, Align4k(size)).1 != 0
    ensures Recorded(s, AfterRecord(s, size, kind, flags), NewHeader(s, size, kind, flags))
  {
    assert RangesOk(s.phys.ranges);
    hide HeadersOk, LedgerOk, AllocPhys, RangesOk, Behind;
    AlignedAgain(size);
    AllocPhysFirstFit(s.phys, Align4k(size));
    var phys := AllocPhys(s.phys, Align4k(size)).1;
    TakenRunIsNew(s.phys, s.runs, Align4k(size), Client(|s.table.headers|));
    AddRegionKeepsHeaders(s.heaps, s.table, size, kind, phys, flags);
  }

  lemma HeapMoved(s: Mem, size: nat, kind: AllocType)
    requires BooksOk(s) && Fits(s.heaps, size, kind)
    ensures HeadersOk(AllocVirt(s.heaps, size, kind).0, s.table.headers)
  {
    AllocVirtIsNew(s.heaps, size, kind);
  }

  /** Either avmf_alloc fails and at most sets a run aside, or it maps the header it has recorded. */
  lemma AllocOutcome(s: Mem, size: nat, kind: AllocType, flags: nat)
    requires BooksOk(s) && Fits(s.heaps, size, kind)
    ensures var (s', virt) := Alloc(s, size, kind, flags);
            var hd, s2 := NewHeader(s, size, kind, flags), AfterRecord(s, size, kind, flags);
            && (virt == 0 ==> SetAside(s, s'))
            && (virt != 0 ==>
                  && Recorded(s, s2, hd) && s' == MapRange(s2, hd.virt, hd.phys, hd.size, flags, 0)
                  && virt == hd.virt == s.heaps.Top(kind))
  {
    assert RangesOk(s.phys.ranges);
    hide MapRange, HeadersOk, LedgerOk, AllocPhys, RangesOk, Behind, Fits;
    HeapMoved(s, size, kind);
    if AllocVirt(s.heaps, size, kind).1 == 0 {
      return;
    }
    RequestSize(s.heaps, size, kind);
    AlignedAgain(size);
    var trueSize := Align4k(size);
    AllocPhysFirstFit(s.phys, trueSize);
    if AllocPhys(s.phys, trueSize).1 == 0 {
      return;
    }
    if |s.table.headers| >= STATIC_HEADERS {
      TakenRunIsNew(s.phys, s.runs, trueSize, Stranded);
    } else {
      RecordedNow(s, size, kind, flags);
    }
  }

  lemma RequestSize(h: Heaps, size: nat, kind: AllocType)
    requires Fits(h, size, kind)
    ensures 0 < size && size + PAGE_SIZE <= TWO64 && Align4k(size) < TWO64
  {
  }

  lemma RecordedOwners(s: Mem, s2: Mem, hd: Header)
    requires OwnersOk(s) && Recorded(s, s2, hd)
    ensures OwnersOk(s2) && Live(s2, |s.table.headers|)
  {
    hide BooksOk;
    forall k | 0 <= k < |s2.runs| && s2.runs[k].owner.Client?
      ensures var h := s2.runs[k].owner.header;
              h < |s2.table.headers| && RunOfHeader(s2.runs[k], s2.table.headers[h])
    {
      if k < |s.runs| {
        assert s2.runs[k] == s.runs[k];
      }
    }
    assert s2.runs[|s.runs|].owner == Client(|s.table.headers|);
  }

  lemma ExtendedOwners(s: Mem, s': Mem)
    requires OwnersOk(s) && Extends(s, s')
    ensures OwnersOk(s') && s.runs <= s'.runs && s.table.headers <= s'.table.headers
  {
    hide Behind, RunOfHeader;
    forall k | 0 <= k < |s'.runs| && s'.runs[k].owner.Client?
      ensures k < |s.runs| && s'.runs[k] == s.runs[k]
    {
    }
  }

  /** avmf_alloc keeps the books on every path; what it returns is a live region with its own header. */
  lemma AllocKeepsRecords(s: Mem, size: nat, kind: AllocType, flags: nat)
    requires RecordsOk(s) && Fits(s.heaps, size, kind) && !Alloc(s, size, kind, flags).0.failed
    ensures var (s', virt) := Alloc(s, size, kind, flags);
            && RecordsOk(s') && s.runs <= s'.runs && s.table.headers <= s'.table.headers
            && (virt != 0 ==>
                  var h := |s.table.headers|;
                  && Live(s', h) && h < |s'.table.headers|
                  && s'.table.headers[h] == NewHeader(s, size, kind, flags))
  {
    hide Alloc, MapRange, BooksOk, NewHeader, AfterRecord, OwnersOk, Fits, Extends, Live;
    AllocOutcome(s, size, kind, flags);
    var (s', virt) := Alloc(s, size, kind, flags);
    if virt == 0 {
      SetAsideOwners(s, s');
    } else {
      var hd, s2 := NewHeader(s, size, kind, flags), AfterRecord(s, size, kind, flags);
      RecordedOwners(s, s2, hd);
      MapRangeBooks(s2, hd.virt, hd.phys, hd.size, flags, 0);
      ExtendedOwners(s2, s');
      LiveIsPrefix(s2, s', |s.table.headers|);
    }
  }

  lemma SetAsideOwners(s: Mem, s': Mem)
    requires OwnersOk(s) && SetAside(s, s')
    ensures OwnersOk(s')
  {
    hide BooksOk, RunOfHeader;
  }

  lemma LiveIsPrefix(s: Mem, s': Mem, h: nat)
    requires Live(s, h) && s.runs <= s'.runs
    ensures Live(s', h)
  {
    var k :| 0 <= k < |s.runs| && s.runs[k].owner == Client(h);
    assert s'.runs[k] == s.runs[k];
  }

  // ----- avmf_free

  /** avmf_free may be given any address of a live region, and any address no header covers: each header
      is freed at most once. */
  ghost predicate FreeRequestOk(s: Mem, virt: nat) {
    forall h :: 0 <= h < |s.table.headers| && s.table.headers[h].Covers(virt) ==> Live(s, h)
  }

  /** An address no header covers: avmf_free does nothing. */
  lemma FreeOfNothing(s: Mem, virt: nat)
    requires forall h :: 0 <= h < |s.table.headers| ==> !s.table.headers[h].Covers(virt)
    ensures Free(s, virt) == s
  {
  }

  lemma {:induction false} DropClientIsRemoval(runs: seq<Run>, h: nat) returns (k: nat)
    requires exists i :: 0 <= i < |runs| && runs[i].owner == Client(h)
    ensures k < |runs| && runs[k].owner == Client(h) && DropClient(runs, h) == runs[..k] + runs[k + 1..]
  {
    if runs[0].owner == Client(h) {
      k := 0;
    } else {
      var i :| 0 <= i < |runs| && runs[i].owner == Client(h);
      assert runs[1..][i - 1] == runs[i];
      k := DropClientIsRemoval(runs[1..], h);
      k := k + 1;
    }
  }

  /** Giving a run back clears exactly its bits. */
  lemma ReleaseKeepsLedger(ph: Phys, runs: seq<Run>, k: nat)
    requires LedgerOk(ph, runs) && k < |runs|
    ensures LedgerOk(ph.(used := ph.used - Physical.Pages(runs[k].start, runs[k].len)), runs[..k] + runs[k + 1..])
  {
    hide RangesOk, InRam;
    var rest := runs[..k] + runs[k + 1..];
    var used := ph.used - Physical.Pages(runs[k].start, runs[k].len);
    forall i | 0 <= i < |rest|
      ensures rest[i] == runs[if i < k then i else i + 1]
    {
    }
    forall p
      ensures p in used <==> Held(rest, p)
    {
      if p in used {
        var i :| 0 <= i < |runs| && runs[i].Has(p);
        assert i != k;
        assert rest[if i < k then i else i - 1].Has(p);
      }
      if Held(rest, p) {
        var i :| 0 <= i < |rest| && rest[i].Has(p);
        var j := if i < k then i else i + 1;
        assert runs[j].Has(p);
        assert if j < k then runs[j].Apart(runs[k]) else runs[k].Apart(runs[j]);
      }
    }
  }

  /** The state after the bits are cleared and before pager_unmap. */
  ghost predicate Released(s: Mem, s1: Mem, h: nat) {
    && h < |s.table.headers|
    && exists k :: 0 <= k < |s.runs| && s.runs[k].owner == Client(h)
                   && s1 == s.(table := s1.table, runs := s.runs[..k] + s.runs[k + 1..],
                               phys := s.phys.(used := s.phys.used - Physical.Pages(s.runs[k].start, s.runs[k].len)))
                   && s1.table.headers == s.table.headers && CacheOk(s1.table)
  }

  ghost predicate OneLess(runs: seq<Run>, rest: seq<Run>, k: nat) {
    k < |runs| && rest == runs[..k] + runs[k + 1..]
  }

  lemma OneLessRuns(runs: seq<Run>, rest: seq<Run>, k: nat)
    requires OneLess(runs, rest, k)
    ensures forall i :: 0 <= i < |rest| ==> rest[i] == runs[if i < k then i else i + 1]
    ensures forall r :: r in runs && r != runs[k] ==> r in rest
    ensures |rest| == |runs| - 1
  {
    forall r | r in runs && r != runs[k]
      ensures r in rest
    {
      var i :| 0 <= i < |runs| && runs[i] == r;
      assert rest[if i < k then i else i - 1] == r;
    }
  }

  lemma ReleaseKeepsOwners(s: Mem, s1: Mem, k: nat)
    requires OwnersOk(s) && OneLess(s.runs, s1.runs, k) && s.runs[k].owner.Client?
    requires s1.table.headers == s.table.headers
    ensures OwnersOk(s1) && !Live(s1, s.runs[k].owner.header)
    ensures forall g: nat :: g != s.runs[k].owner.header ==> (Live(s1, g) <==> Live(s, g))
  {
    OneLessRuns(s.runs, s1.runs, k);
    var h := s.runs[k].owner.header;
    hide RunOfHeader;
    forall i | 0 <= i < |s1.runs|
      ensures s1.runs[i].owner != Client(h)
    {
      var j := if i < k then i else i + 1;
      assert s1.runs[i] == s.runs[j];
      assert if j < k then s.runs[j].owner.Client? ==> s.runs[j].owner != s.runs[k].owner
             else s.runs[k].owner != s.runs[j].owner;
    }
    forall g: nat | g != h
      ensures Live(s1, g) <==> Live(s, g)
    {
      if Live(s, g) {
        var i :| 0 <= i < |s.runs| && s.runs[i].owner == Client(g);
        assert s.runs[i] in s1.runs;
      }
      if Live(s1, g) {
        var i :| 0 <= i < |s1.runs| && s1.runs[i].owner == Client(g);
        assert s.runs[if i < k then i else i + 1].owner == Client(g);
      }
    }
  }

  lemma ReleaseKeepsRecords(s: Mem, s1: Mem, h: nat)
    requires RecordsOk(s) && Released(s, s1, h)
    ensures RecordsOk(s1) && !Live(s1, h) && s1.table.headers == s.table.headers
    ensures s1 == s.(table := s1.table, runs := s1.runs, phys := s1.phys)
    ensures forall g: nat :: g != h ==> (Live(s1, g) <==> Live(s, g))
    ensures forall r: Run :: r in s.runs && !r.owner.Client? ==> r in s1.runs
    ensures var hd := s.table.headers[h];
            forall p: nat :: 0 <= p - hd.phys / PAGE_SIZE < RegionPages(hd) ==> p !in s1.phys.used
  {
    var k :| 0 <= k < |s.runs| && s.runs[k].owner == Client(h)
             && s1 == s.(table := s1.table, runs := s.runs[..k] + s.runs[k + 1..],
                         phys := s.phys.(used := s.phys.used - Physical.Pages(s.runs[k].start, s.runs[k].len)))
             && s1.table.headers == s.table.headers && CacheOk(s1.table);
    assert RunOfHeader(s.runs[k], s.table.headers[h]);
    assert OneLess(s.runs, s1.runs, k);
    ReleaseKeepsLedger(s.phys, s.runs, k);
    ReleaseKeepsOwners(s, s1, k);
    OneLessRuns(s.runs, s1.runs, k);
    hide LedgerOk, HeadersOk, OwnersOk, Live;
  }

  /** What avmf_free does before it unmaps. */
  lemma FreeReleases(s: Mem, virt: nat, h: nat) returns (s1: Mem)
    requires RecordsOk(s) && h < |s.table.headers| && Live(s, h) && s.table.headers[h].Covers(virt)
    ensures Released(s, s1, h) && Free(s, virt) == Unmap(s1, virt)
  {
    hide HeadersOk, LedgerOk, Unmap;
    HeaderBounds(s.heaps, s.table.headers, h);
    HeaderTranslates(s.heaps, s.table, h, virt);
    CachedFindIsScan(s.heaps, s.table, virt);
    var k := DropClientIsRemoval(s.runs, h);
    var hd := s.table.headers[h];
    assert RunOfHeader(s.runs[k], hd);
    s1 := s.(table := Find(s.table, virt).0,
             phys := s.phys.(used := s.phys.used - Physical.Pages(hd.phys / PAGE_SIZE, hd.size / PAGE_SIZE)),
             runs := DropClient(s.runs, h));
  }

  lemma UnmapLeavesRecords(s: Mem, virt: nat)
    ensures var s' := Unmap(s, virt); s' == s.(pages := s'.pages)
  {
  }

  /** avmf_free keeps the books, the headers, every other live region and every run of a page table. */
  lemma FreeKeepsRecords(s: Mem, virt: nat)
    requires RecordsOk(s) && FreeRequestOk(s, virt)
    ensures var s' := Free(s, virt);
            && RecordsOk(s') && s'.table.headers == s.table.headers
            && (forall h: nat :: h < |s.table.headers| ==>
                                   (Live(s', h) <==> Live(s, h) && !s.table.headers[h].Covers(virt)))
            && (forall t: nat :: Run(t, 1, PageTable) in s.runs ==> Run(t, 1, PageTable) in s'.runs)
  {
    if h: nat :| h < |s.table.headers| && s.table.headers[h].Covers(virt) {
      var s1 := FreeReleases(s, virt, h);
      hide Unmap, Free, Live, Released, LedgerOk, HeadersOk, OwnersOk;
      ReleaseKeepsRecords(s, s1, h);
      UnmapLeavesRecords(s1, virt);
      UnmapKeepsOwners(s1, Unmap(s1, virt));
      forall g: nat | g < |s.table.headers| && g != h
        ensures !s.table.headers[g].Covers(virt)
      {
        if s.table.headers[g].Covers(virt) {
          CoveredOnce(s.heaps, s.table.headers, g, h, virt);
        }
      }
    } else {
      FreeOfNothing(s, virt);
      hide Free, RecordsOk, Live;
    }
  }

  lemma UnmapKeepsOwners(s: Mem, s': Mem)
    requires OwnersOk(s) && s' == s.(pages := s'.pages)
    ensures OwnersOk(s') && forall h: nat :: Live(s', h) <==> Live(s, h)
  {
  }

  // ----- every run

  datatype Op =
    | DoAlloc(size: nat, kind: AllocType, flags: nat)
    | DoFree(virt: nat)
    | DoTranslate(virt: nat)

  function Step(s: Mem, op: Op): (r: Mem)
    ensures s.failed ==> r.failed
  {
    match op
    case DoAlloc(size, kind, flags) => Alloc(s, size, kind, flags).0
    case DoFree(virt) => Free(s, virt)
    case DoTranslate(virt) => s.(table := VirtToPhys(s.table, virt).0)
  }

  function RunOps(s: Mem, ops: seq<Op>): (r: Mem)
    ensures s.failed ==> r.failed
    decreases |ops|
  {
    if ops == [] then s else RunOps(Step(s, ops[0]), ops[1..])
  }

  /** Sizes are positive and do not wrap, and each header is freed at most once; flags and addresses are
      free. */
  ghost predicate OpFits(s: Mem, op: Op) {
    match op
    case DoAlloc(size, kind, flags) => Fits(s.heaps, size, kind)
    case DoFree(virt) => FreeRequestOk(s, virt)
    case DoTranslate(virt) => true
  }

  ghost predicate RunFits(s: Mem, ops: seq<Op>)
    decreases |ops|
  {
    ops == [] || (OpFits(s, ops[0]) && RunFits(Step(s, ops[0]), ops[1..]))
  }

  ghost predicate TableRunsStay(s: Mem, s': Mem) {
    forall t: nat :: Run(t, 1, PageTable) in s.runs ==> Run(t, 1, PageTable) in s'.runs
  }

  lemma TranslateKeepsRecords(s: Mem, virt: nat)
    requires RecordsOk(s)
    ensures RecordsOk(s.(table := VirtToPhys(s.table, virt).0))
  {
    hide VirtToPhys, LedgerOk, HeadersOk;
  }

  lemma StepKeepsRecords(s: Mem, op: Op)
    requires RecordsOk(s) && OpFits(s, op) && !Step(s, op).failed
    ensures var s' := Step(s, op);
            RecordsOk(s') && s.table.headers <= s'.table.headers && TableRunsStay(s, s')
  {
    hide RecordsOk, Alloc, Free, VirtToPhys;
    match op {
      case DoAlloc(size, kind, flags) => AllocKeepsRecords(s, size, kind, flags);
      case DoFree(virt) => FreeKeepsRecords(s, virt);
      case DoTranslate(virt) => TranslateKeepsRecords(s, virt);
    }
  }

  /** The books are kept by every run in which no page-table allocation fails. */
  lemma {:induction false} RunsKeepRecords(s: Mem, ops: seq<Op>)
    requires RecordsOk(s) && RunFits(s, ops) && !RunOps(s, ops).failed
    ensures var s' := RunOps(s, ops);
            RecordsOk(s') && s.table.headers <= s'.table.headers && TableRunsStay(s, s')
    decreases |ops|
  {
    hide RecordsOk, OpFits, Step;
    if ops != [] {
      StepKeepsRecords(s, ops[0]);
      RunsKeepRecords(Step(s, ops[0]), ops[1..]);
    }
  }

  function TotalPages(runs: seq<Run>): nat
    decreases |runs|
  {
    if runs == [] then 0 else TotalPages(runs[..|runs| - 1]) + runs[|runs| - 1].len
  }

  lemma {:induction false} CountRuns(ph: Phys, runs: seq<Run>)
    requires LedgerOk(ph, runs)
    ensures |ph.used| == TotalPages(runs)
    decreases |runs|
  {
    hide InRam, RangesOk;
    if runs == [] {
      assert ph.used == {};
    } else {
      var k := |runs| - 1;
      var r := runs[k];
      ReleaseKeepsLedger(ph, runs, k);
      assert runs[..k] + runs[k + 1..] == runs[..k];
      var taken := Physical.Pages(r.start, r.len);
      CountRuns(ph.(used := ph.used - taken), runs[..k]);
      PagesCount(r.start, r.len);
      forall p | p in taken
        ensures p in ph.used
      {
        assert runs[k].Has(p);
      }
      assert ph.used == (ph.used - taken) + taken;
    }
  }

  /** Conservation after every run: the runs handed out are disjoint, a page's bit is set exactly
      when one of them has the page, and the number of set bits is the sum of their lengths. */
  lemma PagesAreConserved(s: Mem, ops: seq<Op>)
    requires RecordsOk(s) && RunFits(s, ops) && !RunOps(s, ops).failed
    ensures var s' := RunOps(s, ops);
            && (forall i, j :: 0 <= i < j < |s'.runs| ==> s'.runs[i].Apart(s'.runs[j]))
            && (forall p: nat :: p in s'.phys.used <==> exists k :: 0 <= k < |s'.runs| && s'.runs[k].Has(p))
            && |s'.phys.used| == TotalPages(s'.runs)
  {
    RunsKeepRecords(s, ops);
    CountRuns(RunOps(s, ops).phys, RunOps(s, ops).runs);
    hide RunOps, RunFits, TableRunsStay, HeadersOk, TotalPages, OwnersOk;
  }

  /** A page taken for a table is never handed out again, however the run goes on. */
  lemma TablesAreNeverReissued(s: Mem, ops: seq<Op>, t: nat, size: nat)
    requires RecordsOk(s) && RunFits(s, ops) && !RunOps(s, ops).failed
    requires Run(t, 1, PageTable) in s.runs && 0 < size && size + PAGE_SIZE <= TWO64
    ensures var s' := RunOps(s, ops);
            && t in s'.phys.used
            && var phys := AllocPhys(s'.phys, size).1;
               phys != 0 ==> !(phys / PAGE_SIZE <= t < phys / PAGE_SIZE + Align4k(size) / PAGE_SIZE)
  {
    RunsKeepRecords(s, ops);
    var s' := RunOps(s, ops);
    hide RunOps, RunFits, HeadersOk, AllocPhys, OwnersOk;
    assert Run(t, 1, PageTable) in s'.runs;
    var k :| 0 <= k < |s'.runs| && s'.runs[k] == Run(t, 1, PageTable);
    assert s'.runs[k].Has(t);
    AllocPhysFirstFit(s'.phys, size);
  }

  /** In every reachable state the cache of avmf_find is invisible. */
  lemma LookupsIgnoreTheCache(s: Mem, ops: seq<Op>, a: nat)
    requires RecordsOk(s) && RunFits(s, ops) && !RunOps(s, ops).failed
    ensures var t := RunOps(s, ops).table; Find(t, a).1 == Scan(t.headers, 0, a)
  {
    RunsKeepRecords(s, ops);
    var s' := RunOps(s, ops);
    CachedFindIsScan(s'.heaps, s'.table, a);
  }

  /** In every reachable state a physical address that some header covers, live or stale, comes back
      from the round trip through its virtual address. */
  lemma InverseAfterRuns(s: Mem, ops: seq<Op>, p: nat)
    requires RecordsOk(s) && RunFits(s, ops) && !RunOps(s, ops).failed
    requires exists k :: 0 <= k < |RunOps(s, ops).table.headers| && RunOps(s, ops).table.headers[k].CoversPhys(p)
    ensures var t := RunOps(s, ops).table; VirtToPhys(t, PhysToVirt(t.headers, p)).1 == p
  {
    RunsKeepRecords(s, ops);
    var s' := RunOps(s, ops);
    PhysVirtPhys(s'.heaps, s'.table, p);
  }
}
