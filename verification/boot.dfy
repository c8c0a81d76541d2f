/** pager_init: the first table, the direct map of physical memory, the firmware's identity maps. */
module Boot {
  import opened Words
  import opened Physical
  import opened Regions
  import opened Paging
  import opened Addresses
  import opened MemoryState
  import opened Mapping
  import opened RangeMapping
  import opened Bookkeeping
  import opened PageMaps
  import opened AvmfRuns
  import opened AvmfTheorems

  const E820_TYPE_RAM: nat := 1
  const DIRECT_FLAGS: nat := 0x13       // PAGE_PRESENT | PAGE_RW | PAGE_PCD
  const WINDOW_SIZE: nat := 0x2000_0000_0000
  const WINDOW_PAGES: nat := 0x2_0000_0000

  datatype E820Entry = E820Entry(base: nat, len: nat, kind: nat) {
    function End(): nat { base + len }
  }

  /** The RAM ranges handed to avmf_init. */
  function RamRanges(entries: seq<E820Entry>): (r: seq<Range>)
    ensures |r| <= |entries|
    decreases |entries|
  {
    if entries == [] then []
    else
      var rest := RamRanges(entries[1..]);
      if entries[0].len != 0 && entries[0].kind == E820_TYPE_RAM
      then [Range(entries[0].base, entries[0].End())] + rest else rest
  }

  /** They are, in order, the entries of type 1 that are not empty, byte for byte. */
  lemma RamOfOne(e: E820Entry)
    ensures RamRanges([e]) == if e.kind == 1 && e.len > 0 then [Range(e.base, e.base + e.len)] else []
  {
    assert RamRanges([e][1..]) == [];
  }

  lemma {:induction false} RamRangesInTwo(a: seq<E820Entry>, b: seq<E820Entry>)
    ensures RamRanges(a + b) == RamRanges(a) + RamRanges(b)
    decreases |a|
  {
    if a == [] {
      assert a + b == b;
    } else {
      assert (a + b)[1..] == a[1..] + b;
      RamRangesInTwo(a[1..], b);
    }
  }

  lemma {:induction false} RamRangesExactly(entries: seq<E820Entry>, r: Range)
    ensures r in RamRanges(entries)
            <==> exists i :: 0 <= i < |entries| && entries[i].kind == 1 && entries[i].len > 0
                             && r == Range(entries[i].base, entries[i].base + entries[i].len)
    decreases |entries|
  {
    if entries != [] {
      var e, rest := entries[0], entries[1..];
      RamRangesExactly(rest, r);
      RamRangesInTwo([e], rest);
      RamOfOne(e);
      hide RamRanges;
      assert entries == [e] + rest;
      assert forall i :: 0 <= i < |rest| ==> rest[i] == entries[i + 1];
      assert forall i :: 0 < i < |entries| ==> entries[i] == rest[i - 1];
    }
  }

  /** avmf_base and avmf_limit once the RAM ranges are copied in. */
  function RangeTable(entries: seq<E820Entry>): (r: seq<Range>)
    requires |entries| <= MAX_RANGES
    ensures |r| == MAX_RANGES
  {
    var ram := RamRanges(entries);
    ram + seq(MAX_RANGES - |ram|, _ => Range(0, 0))
  }

  lemma PaddingIsOk(ram: seq<Range>, n: nat)
    requires RangesOk(ram)
    ensures RangesOk(ram + seq(n, _ => Range(0, 0)))
  {
    hide Align4k;
  }

  lemma RangeTableOk(entries: seq<E820Entry>)
    requires |entries| <= MAX_RANGES && RangesOk(RamRanges(entries))
    ensures RangesOk(RangeTable(entries))
  {
    hide RangesOk, RamRanges;
    var ram := RamRanges(entries);
    PaddingIsOk(ram, MAX_RANGES - |ram|);
    assert RangeTable(entries) == ram + seq(MAX_RANGES - |ram|, _ => Range(0, 0));
  }

  /** The gap-filling loop: entry i is mapped from the end of what is mapped, if it starts later. */
  function MapEntries(s: Mem, entries: seq<E820Entry>, i: nat, last: nat): (r: (Mem, nat))
    requires i <= |entries|
    ensures r.0.root == s.root && r.0.physBits == s.physBits && r.0.loaded == s.loaded
    ensures s.failed ==> r.0.failed
    decreases |entries| - i
  {
    if i == |entries| then (s, last)
    else
      var e := entries[i];
      if e.len < 1 then MapEntries(s, entries, i + 1, last)
      else
        var start := if e.base > last then last else e.base;
        var len := if e.base > last then (e.base - last + e.len) % TWO64 else e.len;
        var end := (start + len) % TWO64;
        if end >= Pow2(s.physBits) then (s, last)
        else
          MapEntries(MapRange(s, (DIRECT_MAP_BASE + start) % TWO64, start, len, DIRECT_FLAGS, 0),
                     entries, i + 1, end)
  }

  /** After avmf_init on zeroed statics, in whatever physical memory holds. */
  function BeforeTables(memory: Memory, ranges: seq<Range>, bits: nat): Mem {
    Mem(Phys(ranges, {}, 0), INITIAL_HEAPS, Table([], None), memory, 0, None, bits, [], false)
  }

  function RootAllocated(s: Mem): Mem {
    var (s', n) := AllocTable(s);
    s'.(root := n)
  }

  function IdentityMaps(s: Mem): (r: Mem)
    ensures r.root == s.root && r.physBits == s.physBits && r.loaded == s.loaded && (s.failed ==> r.failed)
  {
    var firmware := MapRange(s, FIRMWARE_BASE, FIRMWARE_BASE, 0x00FF_FFFF, LINK_FLAGS, 0);
    var stack := MapRange(firmware, 0, 0, 0x8_0000, LINK_FLAGS, 0);
    MapRange(stack, 0x10_0000, 0x10_0000, 0x20_0000, LINK_FLAGS, 0)
  }

  /** pager_init as a whole, with the end of the direct map. */
  function PagerInit(memory: Memory, bits: nat, entries: seq<E820Entry>): (Mem, nat)
    requires |entries| <= MAX_RANGES
  {
    var (direct, last) := MapEntries(RootAllocated(BeforeTables(memory, RangeTable(entries), bits)), entries, 0, 0);
    var mapped := IdentityMaps(direct);
    (mapped.(loaded := Some(mapped.root)), last)
  }

  /** A memory map that is sorted, disjoint, page aligned and inside the direct-map window. */
  predicate MapOk(entries: seq<E820Entry>) {
    && (forall k :: 0 <= k < |entries| && entries[k].len >= 1 ==>
                      && entries[k].base % PAGE_SIZE == 0 && entries[k].len % PAGE_SIZE == 0
                      && entries[k].End() <= WINDOW_SIZE)
    && (forall j, k :: 0 <= j < k < |entries| && entries[j].len >= 1 && entries[k].len >= 1 ==>
                         entries[j].End() <= entries[k].base)
  }

  function BitLength(n: nat): (r: nat)
    ensures r >= 1
  {
    if n < 2 then 1 else BitLength(n / 2) + 1
  }

  /** It is the least positive number of bits that the value fits. */
  lemma {:induction false} BitLengthExact(n: nat, k: nat)
    requires k >= 1
    ensures n < Pow2(k) <==> BitLength(n) <= k
    decreases k
  {
    if k == 1 {
      assert Pow2(1) == 2;
    } else {
      BitLengthExact(n / 2, k - 1);
      if n < 2 {
        assert Pow2(k) >= 2;
      }
    }
  }

  /** bits_needed. */
  method BitsNeeded(n: nat) returns (count: nat)
    ensures count == BitLength(n)
  {
    count := 1;
    var rest := n / 2;
    while rest > 0
      invariant rest >= 0
      invariant BitLength(n) == if rest == 0 then count else count + BitLength(rest)
      decreases rest
    {
      count := count + 1;
      rest := rest / 2;
    }
  }

  // ----- the root table

  lemma OnlyRoot(m: Memory, n: nat, q: Node)
    ensures q != Root ==> TableAt(ZeroPage(m, n), n, q).None?
  {
    if q.Child? && q.up != Root {
      OnlyRoot(m, n, q.up);
    }
  }

  /** While pager_init runs every run is a page table's, and every header a page table's. */
  ghost predicate BootOk(s: Mem) {
    && PagerOk(s)
    && (forall k :: 0 <= k < |s.runs| ==> s.runs[k].owner == PageTable)
    && (forall g :: 0 <= g < |s.table.headers| ==> s.table.headers[g].virt >= SENSITIVE_SPACE_BASE)
    && s.heaps == INITIAL_HEAPS.(sensitive := s.heaps.sensitive)
  }

  lemma RootOk(memory: Memory, ranges: seq<Range>, bits: nat)
    requires RangesOk(ranges) && 32 <= bits <= 52
    requires !RootAllocated(BeforeTables(memory, ranges, bits)).failed
    ensures var s := RootAllocated(BeforeTables(memory, ranges, bits));
            && BootOk(s) && s.physBits == bits && s.loaded.None?
            && (forall w :: TreeWalk(s.pages, s.root, w).None? && !HugeSlot(s.pages, s.root, w))
  {
    var s0 := BeforeTables(memory, ranges, bits);
    NothingTaken(memory, ranges, bits);
    AllocTableBooks(s0);
    var n := AllocTable(s0).1;
    var s := RootAllocated(s0);
    assert s.pages == ZeroPage(memory, n) && s.root == n;
    assert s.runs == [Run(n, 1, PageTable)];
    hide LedgerOk, HeadersOk, AllocTable, RangesOk, Align4k, TreeOk, ZeroPage;
    RootTree(memory, n);
  }

  lemma RootTree(memory: Memory, n: nat)
    ensures var m := ZeroPage(memory, n);
            && TreeOk(m, n) && (forall q :: TableAt(m, n, q) == if q == Root then Some(n) else None)
            && forall w :: TreeWalk(m, n, w).None? && !HugeSlot(m, n, w)
  {
    var m := ZeroPage(memory, n);
    forall q
      ensures TableAt(m, n, q) == if q == Root then Some(n) else None
    {
      OnlyRoot(memory, n, q);
    }
    hide ZeroPage, TableAt;
  }

  lemma NothingCovered(s: Mem)
    requires forall w :: TreeWalk(s.pages, s.root, w).None? && !HugeSlot(s.pages, s.root, w)
    ensures Covered(s, 0) && OnlyWindow(s, 0)
  {
    hide HugeSlot, TreeWalk;
  }

  lemma DoneKeepsBoot(s: Mem, s': Mem, virt: nat, phys: nat, flags: nat, from: nat, to: nat)
    requires BootOk(s) && Done(s, s', virt, phys, flags, from, to)
    ensures BootOk(s')
  {
    hide PagerOk, RangeMapped, NewSlotsInside, Extends;
    ExtendsKeepsBoot(s, s');
  }

  lemma ExtendsKeepsBoot(s: Mem, s': Mem)
    requires BootOk(s) && PagerOk(s') && Extends(s, s')
    ensures BootOk(s')
  {
    hide PagerOk, Behind;
    forall k | 0 <= k < |s'.runs|
      ensures s'.runs[k].owner == PageTable
    {
      assert k < |s.runs| ==> s'.runs[k] == s.runs[k];
    }
    forall g | 0 <= g < |s'.table.headers|
      ensures s'.table.headers[g].virt >= SENSITIVE_SPACE_BASE
    {
      assert g < |s.table.headers| ==> s'.table.headers[g] == s.table.headers[g];
    }
  }

  // ----- the direct map

  /** How far into the direct-map window a page lies. */
  function WindowPage(w: VPage): nat { Offset(DIRECT_MAP_BASE, w) }

  ghost predicate Covered(s: Mem, pages: nat) {
    forall w :: WindowPage(w) < pages ==> TreeWalk(s.pages, s.root, w) == Some(Leaf(WindowPage(w), Attrs(DIRECT_FLAGS)))
  }

  /** Nothing else is mapped. */
  ghost predicate OnlyWindow(s: Mem, pages: nat) {
    forall w :: WindowPage(w) >= pages ==> TreeWalk(s.pages, s.root, w).None? && !HugeSlot(s.pages, s.root, w)
  }

  /** Offsets into the window, seen from a page inside it. */
  lemma WindowShift(start: nat, n: nat, w: VPage)
    requires start % PAGE_SIZE == 0 && start / PAGE_SIZE + n <= WINDOW_PAGES
    ensures var p := start / PAGE_SIZE;
            && (Offset(DIRECT_MAP_BASE + start, w) < n <==> p <= WindowPage(w) < p + n)
            && (Offset(DIRECT_MAP_BASE + start, w) < n ==> WindowPage(w) == p + Offset(DIRECT_MAP_BASE + start, w))
  {
    hide VNum;
    var p := start / PAGE_SIZE;
    var d := DIRECT_MAP_BASE / PAGE_SIZE;
    assert (DIRECT_MAP_BASE + start) / PAGE_SIZE == d + p;
    ShiftedOffsets(d, p, n, VNum(w));
  }

  lemma ShiftedOffsets(d: nat, p: nat, n: nat, b: nat)
    requires p + n <= WINDOW_PAGES && b < SPACE_PAGES
    ensures var far, near := (b - d) % SPACE_PAGES, (b - (d + p)) % SPACE_PAGES;
            (near < n <==> p <= far < p + n) && (near < n ==> far == p + near)
  {
    var far, near := (b - d) % SPACE_PAGES, (b - (d + p)) % SPACE_PAGES;
    if near < n {
      SubtractModSpace(b, d + p, near);
      SubtractModSpace(b, d, p + near);
      assert d + p + near == d + (p + near);
    }
    if p <= far < p + n {
      SubtractModSpace(b, d, far);
      SubtractModSpace(b, d + p, far - p);
      assert d + p + (far - p) == d + far;
    }
  }

  /** One entry extends the direct map from its end; none of its pages lies in a slot that an earlier
      entry mapped whole. */
  lemma EntryExtends(s: Mem, start: nat, len: nat)
    requires BootOk(s) && start % PAGE_SIZE == 0 && len % PAGE_SIZE == 0 && len >= 1
    requires start + len <= WINDOW_SIZE && start + len <= Pow2(s.physBits)
    requires Covered(s, start / PAGE_SIZE) && OnlyWindow(s, start / PAGE_SIZE)
    requires !MapRange(s, DIRECT_MAP_BASE + start, start, len, DIRECT_FLAGS, 0).failed
    ensures SlotsFree(s, DIRECT_MAP_BASE + start, 0, PageCount(len))
    ensures var s' := MapRange(s, DIRECT_MAP_BASE + start, start, len, DIRECT_FLAGS, 0);
            BootOk(s') && Covered(s', (start + len) / PAGE_SIZE) && OnlyWindow(s', (start + len) / PAGE_SIZE)
  {
    hide MapRange, LedgerOk, HeadersOk, TreeOk, TreeWalk, HugeSlot, Offset, WindowPage, Pow2, Attrs, Extends;
    var p, n := start / PAGE_SIZE, len / PAGE_SIZE;
    EntryPages(start, len);
    forall w
      ensures Offset(DIRECT_MAP_BASE + start, w) < n <==> p <= WindowPage(w) < p + n
      ensures Offset(DIRECT_MAP_BASE + start, w) < n ==> WindowPage(w) == p + Offset(DIRECT_MAP_BASE + start, w)
    {
      WindowShift(start, n, w);
    }
    var s' := MapRange(s, DIRECT_MAP_BASE + start, start, len, DIRECT_FLAGS, 0);
    MapRangeFrom(s, DIRECT_MAP_BASE + start, start, len, DIRECT_FLAGS, 0);
    DoneKeepsBoot(s, s', DIRECT_MAP_BASE + start, start, DIRECT_FLAGS, 0, n);
    forall w | HugeSlot(s'.pages, s'.root, w)
      ensures WindowPage(w) < p + n
    {
      assert PtNode(w) == PtNode(w);
    }
  }

  lemma EntryPages(start: nat, len: nat)
    requires start % PAGE_SIZE == 0 && len % PAGE_SIZE == 0 && start + len <= WINDOW_SIZE
    ensures (start + len) / PAGE_SIZE == start / PAGE_SIZE + len / PAGE_SIZE <= WINDOW_PAGES
    ensures PageCount(len) == len / PAGE_SIZE
    ensures (DIRECT_MAP_BASE + start) % PAGE_SIZE == 0 && DIRECT_MAP_BASE + start < TWO64
    ensures !Huge(DIRECT_FLAGS)
  {
  }

  /** For every memory map, sorted or not: the loop goes through the entries in order up to the first, empty ones
      aside, whose end, a 64-bit sum, is beyond the processor's limit, and what it calls the end of the direct map is
      the end of the last it has gone through, even if an earlier entry reached further. */
  lemma {:induction false} LastMapEndExactly(s: Mem, entries: seq<E820Entry>, i: nat, last: nat, k: nat)
    requires i <= k <= |entries| && last < TWO64
    requires forall j :: i <= j < k && entries[j].len >= 1 ==> entries[j].End() % TWO64 < Pow2(s.physBits)
    requires k < |entries| ==> entries[k].len >= 1 && entries[k].End() % TWO64 >= Pow2(s.physBits)
    ensures var end := MapEntries(s, entries, i, last).1;
            && ((forall j :: i <= j < k ==> entries[j].len < 1) ==> end == last)
            && (forall j :: i <= j < k && entries[j].len >= 1 && (forall m :: j < m < k ==> entries[m].len < 1) ==>
                              end == entries[j].End() % TWO64)
    decreases |entries| - i
  {
    hide MapEntries, MapRange, Pow2, E820Entry.End;
    var s1 := EntryEnds(s, entries, i, last);
    if i < k {
      LastMapEndExactly(s1, entries, i + 1, if entries[i].len < 1 then last else entries[i].End() % TWO64, k);
    }
  }

  /** One round of the loop, as far as ends go. */
  lemma EntryEnds(s: Mem, entries: seq<E820Entry>, i: nat, last: nat) returns (s1: Mem)
    requires i <= |entries| && last < TWO64
    ensures s1.physBits == s.physBits
    ensures MapEntries(s, entries, i, last).1
            == if i == |entries| then last
               else if entries[i].len < 1 then MapEntries(s1, entries, i + 1, last).1
               else if entries[i].End() % TWO64 >= Pow2(s.physBits) then last
               else MapEntries(s1, entries, i + 1, entries[i].End() % TWO64).1
  {
    hide MapRange, Pow2;
    s1 := s;
    if i < |entries| && entries[i].len >= 1 {
      var e := entries[i];
      var start := if e.base > last then last else e.base;
      var len := if e.base > last then (e.base - last + e.len) % TWO64 else e.len;
      WrappedSum(e, last);
      s1 := MapRange(s, (DIRECT_MAP_BASE + start) % TWO64, start, len, DIRECT_FLAGS, 0);
    }
  }

  lemma WrappedSum(e: E820Entry, last: nat)
    ensures e.base > last ==> (last + (e.base - last + e.len) % TWO64) % TWO64 == e.End() % TWO64
  {
    if e.base > last {
      var x := e.base - last + e.len;
      assert x == x / TWO64 * TWO64 + x % TWO64;
    }
  }

  /** Entry k and all before it are below the processor's limit. */
  predicate Mappable(entries: seq<E820Entry>, k: nat, limit: nat)
    requires k < |entries|
  {
    forall j :: 0 <= j <= k && entries[j].len >= 1 ==> entries[j].End() < limit
  }

  /** The loop keeps everything below `last` mapped, and reaches every mappable entry. */
  lemma {:induction false} DirectMapFrom(s: Mem, entries: seq<E820Entry>, i: nat, last: nat)
    requires MapOk(entries) && i <= |entries| && BootOk(s)
    requires last % PAGE_SIZE == 0 && last <= WINDOW_SIZE
    requires forall k :: i <= k < |entries| && entries[k].len >= 1 ==> last <= entries[k].base
    requires forall k :: 0 <= k < i && entries[k].len >= 1 ==> entries[k].End() < Pow2(s.physBits)
    requires Covered(s, last / PAGE_SIZE) && OnlyWindow(s, last / PAGE_SIZE)
    requires !MapEntries(s, entries, i, last).0.failed
    ensures var (s', end) := MapEntries(s, entries, i, last);
            && BootOk(s') && last <= end <= WINDOW_SIZE && end % PAGE_SIZE == 0
            && Covered(s', end / PAGE_SIZE) && OnlyWindow(s', end / PAGE_SIZE)
            && (forall k :: i <= k < |entries| && entries[k].len >= 1 && Mappable(entries, k, Pow2(s.physBits)) ==>
                              entries[k].End() <= end)
            && (end == last
                || exists k :: i <= k < |entries| && entries[k].len >= 1 && Mappable(entries, k, Pow2(s.physBits))
                               && entries[k].End() == end)
    decreases |entries| - i
  {
    hide BootOk, Covered, OnlyWindow, MapRange, Pow2, Mappable, MapOk;
    if i < |entries| {
      var e := entries[i];
      if e.len < 1 {
        DirectMapFrom(s, entries, i + 1, last);
      } else {
        var end := e.End();
        EntryInMap(entries, i, last);
        if end < Pow2(s.physBits) {
          assert Mappable(entries, i, Pow2(s.physBits)) by {
            NowMappable(entries, i, Pow2(s.physBits));
          }
          EntryExtends(s, last, end - last);
          DirectMapFrom(MapRange(s, DIRECT_MAP_BASE + last, last, end - last, DIRECT_FLAGS, 0),
                        entries, i + 1, end);
        } else {
          NoneMappable(entries, i, Pow2(s.physBits));
        }
      }
    }
  }

  /** An entry of a proper memory map, past all that is mapped so far. */
  lemma EntryInMap(entries: seq<E820Entry>, i: nat, last: nat)
    requires MapOk(entries) && i < |entries| && entries[i].len >= 1 && last <= entries[i].base
    ensures var e := entries[i];
            && e.End() % PAGE_SIZE == 0 && e.End() <= WINDOW_SIZE
            && (if e.base > last then last else e.base) == last
            && last + (if e.base > last then (e.base - last + e.len) % TWO64 else e.len) == e.End()
            && e.End() % TWO64 == e.End()
            && forall k :: i < k < |entries| && entries[k].len >= 1 ==> e.End() <= entries[k].base
  {
  }

  lemma NowMappable(entries: seq<E820Entry>, i: nat, limit: nat)
    requires i < |entries| && forall j :: 0 <= j <= i && entries[j].len >= 1 ==> entries[j].End() < limit
    ensures Mappable(entries, i, limit)
  {
  }

  lemma NoneMappable(entries: seq<E820Entry>, i: nat, limit: nat)
    requires i < |entries| && entries[i].len >= 1 && entries[i].End() >= limit
    ensures forall k :: i <= k < |entries| ==> !Mappable(entries, k, limit)
  {
  }

  // ----- the identity maps

  lemma WindowNumbers(w: VPage)
    ensures WindowPage(w) < WINDOW_PAGES <==> DirectPage(w)
  {
    hide VNum;
    var d := DIRECT_MAP_BASE / PAGE_SIZE;
    assert d == 0xFFFF * SPACE_PAGES + 0x8_0000_0000;
    IntervalOffsets(d, 0x8_0000_0000, WINDOW_PAGES, VNum(w));
  }

  lemma LowNumbers(first: nat, n: nat, w: VPage)
    requires first + n <= 0x10_0000
    ensures Offset(first * PAGE_SIZE, w) < n <==> first <= VNum(w) < first + n
    ensures Offset(first * PAGE_SIZE, w) < n ==> Offset(first * PAGE_SIZE, w) == VNum(w) - first
  {
    hide VNum;
    assert first * PAGE_SIZE / PAGE_SIZE == first;
    IntervalOffsets(first, first, n, VNum(w));
    if first <= VNum(w) {
      SubtractModSpace(VNum(w), first, VNum(w) - first);
    }
  }

  /** Where an identity map sends a page. */
  function IdentityLeaf(w: VPage): Leaf { Leaf(VNum(w), Attrs(LINK_FLAGS)) }

  /** The pages pager_init maps to themselves: the firmware's stack, its data and its window. */
  predicate IdentityPage(w: VPage) {
    VNum(w) < 0x80 || 0x100 <= VNum(w) < 0x300 || FirmwarePage(w)
  }

  /** The firmware's slots that pager_init maps whole: all of its window but the last one. */
  predicate WholeFirmwarePage(w: VPage) { 0xF_F000 <= VNum(w) < 0xF_FE00 }

  /** Mapping low pages that lie in no whole slot to themselves. */
  lemma IdentityEffect(s: Mem, first: nat, size: nat)
    requires BootOk(s) && 0 < size && first + PageCount(size) <= 0x10_0000
    requires forall w :: first <= VNum(w) < first + PageCount(size) ==> !HugeSlot(s.pages, s.root, w)
    requires !MapRange(s, first * PAGE_SIZE, first * PAGE_SIZE, size, LINK_FLAGS, 0).failed
    ensures var s' := MapRange(s, first * PAGE_SIZE, first * PAGE_SIZE, size, LINK_FLAGS, 0);
            && BootOk(s')
            && (forall w :: TreeWalk(s'.pages, s'.root, w)
                            == if first <= VNum(w) < first + PageCount(size) then Some(IdentityLeaf(w))
                               else TreeWalk(s.pages, s.root, w))
            && (forall w :: HugeSlot(s'.pages, s'.root, w)
                            == (HugeSlot(s.pages, s.root, w)
                                || WholeStep(first * PAGE_SIZE, first * PAGE_SIZE, size, 0, w)))
  {
    hide MapRange, BooksOk, TreeOk, TreeWalk, HugeSlot, Offset, Attrs, Extends, VNum, WholeStep;
    var virt, n := first * PAGE_SIZE, PageCount(size);
    var s' := MapRange(s, virt, virt, size, LINK_FLAGS, 0);
    forall w
      ensures Offset(virt, w) < n <==> first <= VNum(w) < first + n
      ensures Offset(virt, w) < n ==> Offset(virt, w) == VNum(w) - first
    {
      LowNumbers(first, n, w);
    }
    assert virt / PAGE_SIZE == first;
    LowRangeOk(s, first, size);
    MapRangeExact(s, virt, virt, size, LINK_FLAGS, 0);
    ExtendsKeepsBoot(s, s');
  }

  /** A low slot that a step of an identity map covers lies in its range, at whole multiples. */
  lemma WholeLowStep(first: nat, size: nat, w: VPage)
    requires first + PageCount(size) <= 0x10_0000
    ensures WholeStep(first * PAGE_SIZE, first * PAGE_SIZE, size, 0, w)
            <==> first <= VNum(w) - w.i1 && (VNum(w) - w.i1 - first) * PAGE_SIZE + SLOT_SIZE <= size
  {
    var virt := first * PAGE_SIZE;
    var j, k := VNum(w) - w.i1, Offset(virt, w) - w.i1;
    WholeStepLater(virt, virt, size, 0, w);
    LowNumbers(first, PageCount(size), w);
    hide Offset, VNum;
    SlotBase(w);
    if first <= j && (j - first) * PAGE_SIZE + SLOT_SIZE <= size {
      LowStepPages(first, size, j, w.i1);
      assert k == j - first;
      assert virt + k * PAGE_SIZE == j * PAGE_SIZE;
    }
  }

  lemma SlotBase(w: VPage)
    ensures VNum(w) - w.i1 >= 0 && (VNum(w) - w.i1) % 512 == 0 && (VNum(w) - w.i1) * PAGE_SIZE % SLOT_SIZE == 0
  {
    var q := w.i4 * 0x4_0000 + w.i3 * 512 + w.i2;
    assert VNum(w) - w.i1 == q * 512;
    assert (VNum(w) - w.i1) * PAGE_SIZE == q * SLOT_SIZE;
  }

  lemma LowStepPages(first: nat, size: nat, j: nat, i: nat)
    requires first <= j && i < 512 && (j - first) * PAGE_SIZE + SLOT_SIZE <= size
    ensures j + i < first + PageCount(size)
  {
  }

  lemma LowRangeOk(s: Mem, first: nat, size: nat)
    requires 32 <= s.physBits <= 52 && first + PageCount(size) <= 0x10_0000
    ensures RangeOk(s, first * PAGE_SIZE, first * PAGE_SIZE, size, LINK_FLAGS)
  {
    Pow2Values();
    Pow2Monotone(32, s.physBits);
  }

  /** What the three identity maps add to the direct map. */
  ghost predicate IdentityMapped(s: Mem) {
    && (forall w :: IdentityPage(w) ==> TreeWalk(s.pages, s.root, w) == Some(IdentityLeaf(w)))
    && (forall w :: WholeFirmwarePage(w) ==> HugeSlot(s.pages, s.root, w))
    && (forall w :: HugeSlot(s.pages, s.root, w) ==> DirectPage(w) || WholeFirmwarePage(w))
  }

  /** The identity maps put the firmware's pages where they are in physical memory, the first seven slots
      of its window whole, and leave the direct map alone. */
  lemma IdentityMapsExact(s: Mem, covered: nat)
    requires BootOk(s) && covered <= WINDOW_PAGES && Covered(s, covered) && OnlyWindow(s, covered)
    requires !IdentityMaps(s).failed
    ensures var s' := IdentityMaps(s);
            && BootOk(s') && Covered(s', covered) && IdentityMapped(s')
            && (forall w :: WindowPage(w) >= covered && !IdentityPage(w) ==> TreeWalk(s'.pages, s'.root, w).None?)
            && forall w :: HugeSlot(s.pages, s.root, w) ==> HugeSlot(s'.pages, s'.root, w)
  {
    hide BootOk, TreeWalk, HugeSlot, WindowPage, VNum, MapRange, WholeStep, Attrs;
    forall w
      ensures WindowPage(w) < WINDOW_PAGES <==> DirectPage(w)
      ensures WholeStep(0xF_F000 * PAGE_SIZE, 0xF_F000 * PAGE_SIZE, 0x00FF_FFFF, 0, w) <==> WholeFirmwarePage(w)
      ensures !WholeStep(0, 0, 0x8_0000, 0, w)
      ensures !WholeStep(0x100 * PAGE_SIZE, 0x100 * PAGE_SIZE, 0x20_0000, 0, w)
    {
      WindowNumbers(w);
      FirmwareSteps(w);
    }
    var firmware := MapRange(s, FIRMWARE_BASE, FIRMWARE_BASE, 0x00FF_FFFF, LINK_FLAGS, 0);
    IdentityEffect(s, 0xF_F000, 0x00FF_FFFF);
    var stack := MapRange(firmware, 0, 0, 0x8_0000, LINK_FLAGS, 0);
    IdentityEffect(firmware, 0, 0x8_0000);
    IdentityEffect(stack, 0x100, 0x20_0000);
  }

  lemma FirmwareSteps(w: VPage)
    ensures WholeStep(0xF_F000 * PAGE_SIZE, 0xF_F000 * PAGE_SIZE, 0x00FF_FFFF, 0, w) <==> WholeFirmwarePage(w)
    ensures !WholeStep(0, 0, 0x8_0000, 0, w)
    ensures !WholeStep(0x100 * PAGE_SIZE, 0x100 * PAGE_SIZE, 0x20_0000, 0, w)
  {
    hide VNum, WholeStep;
    WholeLowStep(0xF_F000, 0x00FF_FFFF, w);
    WholeLowStep(0, 0x8_0000, w);
    WholeLowStep(0x100, 0x20_0000, w);
    SlotBase(w);
  }

  /** pager_init leaves the direct map complete: every physical address below its end is mapped at its
      place in the window, and the end is that of the last mappable entry; the firmware's stack, data and window
      are mapped to themselves; and nothing else is mapped. From there on every run of the memory manager
      keeps its invariant. */
  lemma BootMapsMemory(memory: Memory, bits: nat, entries: seq<E820Entry>)
    requires |entries| <= MAX_RANGES && RangesOk(RamRanges(entries)) && MapOk(entries)
    requires 32 <= bits <= 52 && !PagerInit(memory, bits, entries).0.failed
    ensures var (s, end) := PagerInit(memory, bits, entries);
            && Inv(s) && (forall h: nat :: !Live(s, h)) && end <= WINDOW_SIZE
            && (forall a: nat :: a < end ==> Translate(s.pages, s.root, DIRECT_MAP_BASE + a) == Some(a))
            && (forall k :: 0 <= k < |entries| && entries[k].len >= 1 && Mappable(entries, k, Pow2(bits)) ==>
                              entries[k].End() <= end)
            && (end == 0 || exists k :: 0 <= k < |entries| && entries[k].len >= 1 && Mappable(entries, k, Pow2(bits))
                                        && entries[k].End() == end)
            && (forall a: nat :: IdentityAddress(a) ==> Translate(s.pages, s.root, a) == Some(a))
            && (forall w :: WindowPage(w) >= end / PAGE_SIZE && !IdentityPage(w) ==> Walk(s.pages, s.root, w).None?)
            && Covered(s, end / PAGE_SIZE) && end % PAGE_SIZE == 0 && IdentityMapped(s) && s.physBits == bits
            && s.heaps == INITIAL_HEAPS.(sensitive := s.heaps.sensitive)
            && (forall g :: 0 <= g < |s.table.headers| ==> s.table.headers[g].virt >= SENSITIVE_SPACE_BASE)
  {
    hide RootAllocated, MapEntries, IdentityMaps, BootOk, TreeWalk, HugeSlot, Translate, Pow2, Inv, RamRanges;
    hide IdentityMapped, Covered, IdentityAddress, IdentityPage, Walk, WindowPage, Mappable, MapOk, RangesOk, Live;
    hide E820Entry.End, OnlyWindow, LedgerOk, HeadersOk, TreeOk;
    var ranges := RangeTable(entries);
    RangeTableOk(entries);
    var s1 := RootAllocated(BeforeTables(memory, ranges, bits));
    var (s2, end) := MapEntries(s1, entries, 0, 0);
    RootOk(memory, ranges, bits);
    NothingCovered(s1);
    DirectMapFrom(s1, entries, 0, 0);
    IdentityMapsExact(s2, end / PAGE_SIZE);
    var s := PagerInit(memory, bits, entries).0;
    LoadKeepsBoot(IdentityMaps(s2), s, end / PAGE_SIZE);
    BootedInv(s);
    BootedSound(s);
    forall a: nat | a < end
      ensures Translate(s.pages, s.root, DIRECT_MAP_BASE + a) == Some(a)
    {
      DirectAddress(s, end, a);
    }
    forall a: nat | IdentityAddress(a)
      ensures Translate(s.pages, s.root, a) == Some(a)
    {
      IdentityTranslates(s, a);
    }
  }

  /** The firmware's stack, data and window. */
  predicate IdentityAddress(a: nat) {
    a < 0x8_0000 || 0x10_0000 <= a < 0x30_0000 || FIRMWARE_BASE <= a < TWO32
  }

  lemma IdentityTranslates(s: Mem, a: nat)
    requires PagerOk(s) && IdentityMapped(s) && IdentityAddress(a)
    ensures Translate(s.pages, s.root, a) == Some(a)
  {
    hide Walk, TreeWalk, VPageOf, VNum, Attrs, BooksOk, TreeOk;
    VNumOf(a);
    WalkFollowsTree(s.pages, s.root, VPageOf(a));
    assert IdentityPage(VPageOf(a));
  }

  /** Every run from power-on: as long as no page-table allocation fails, the invariant holds and
      the direct map is still complete. */
  lemma EveryRunFromBoot(memory: Memory, bits: nat, entries: seq<E820Entry>, ops: seq<Op>)
    requires |entries| <= MAX_RANGES && RangesOk(RamRanges(entries)) && MapOk(entries) && 32 <= bits <= 52
    requires RunOk(PagerInit(memory, bits, entries).0, ops)
    requires !RunOps(PagerInit(memory, bits, entries).0, ops).failed
    ensures var (boot, end) := PagerInit(memory, bits, entries);
            var s := RunOps(boot, ops);
            && Inv(s)
            && (forall a: nat :: a < end ==> Translate(s.pages, s.root, DIRECT_MAP_BASE + a) == Some(a))
  {
    hide PagerInit, Inv, RunOk, RunOps, RamRanges, RangesOk, Translate, VPageOf, TableRunsStay, Live;
    BootMapsMemory(memory, bits, entries);
    var (boot, end) := PagerInit(memory, bits, entries);
    var s := RunOps(boot, ops);
    RunsKeepInv(boot, ops);
    forall a: nat | a < end
      ensures Translate(s.pages, s.root, DIRECT_MAP_BASE + a) == Some(a)
    {
      SystemTranslates(boot, s, a);
    }
  }

  /** The direct map after every good run from power-on: at each physical address below its end the page walk
      and avmf_virt_to_phys agree, and the page is mapped present, writable and uncached. */
  lemma DirectMapAgrees(memory: Memory, bits: nat, entries: seq<E820Entry>, ops: seq<Op>, a: nat)
    requires |entries| <= MAX_RANGES && RangesOk(RamRanges(entries)) && MapOk(entries) && 32 <= bits <= 52
    requires RunOk(PagerInit(memory, bits, entries).0, ops) && a < PagerInit(memory, bits, entries).1
    requires !RunOps(PagerInit(memory, bits, entries).0, ops).failed
    ensures var s, v := RunOps(PagerInit(memory, bits, entries).0, ops), 0xFFFF_8000_0000_0000 + a;
            && Translate(s.pages, s.root, v) == Some(a) && VirtToPhys(s.table, v) == (s.table, a)
            && Walk(s.pages, s.root, VPageOf(v)) == Some(Leaf(a / 4096, 0x13))
  {
    hide PagerInit, Inv, RunOk, RunOps, RamRanges, RangesOk, Translate, VPageOf, TableRunsStay, Live, Walk, TreeWalk;
    hide Mappable, IdentityMapped, IdentityAddress;
    BootMapsMemory(memory, bits, entries);
    EveryRunFromBoot(memory, bits, entries, ops);
    var (boot, end) := PagerInit(memory, bits, entries);
    var s := RunOps(boot, ops);
    RunsKeepInv(boot, ops);
    BootedSound(s);
    DirectPageAt(a);
    SystemPageStays(boot, s, VPageOf(DIRECT_MAP_BASE + a));
    assert a / PAGE_SIZE < end / PAGE_SIZE;
  }

  lemma SystemPageStays(s: Mem, s': Mem, w: VPage)
    requires SystemStays(s, s') && WindowPage(w) < WINDOW_PAGES
    ensures TreeWalk(s'.pages, s'.root, w) == TreeWalk(s.pages, s.root, w)
  {
    hide TreeWalk, HugeSlot;
    WindowNumbers(w);
  }

  /** What pager_init maps to itself is present and writable and nothing else. */
  lemma FirmwareAttributes(memory: Memory, bits: nat, entries: seq<E820Entry>, a: nat)
    requires |entries| <= MAX_RANGES && RangesOk(RamRanges(entries)) && MapOk(entries) && 32 <= bits <= 52
    requires !PagerInit(memory, bits, entries).0.failed
    requires a < 0x8_0000 || 0x10_0000 <= a < 0x30_0000 || 0xFF00_0000 <= a < 0x1_0000_0000
    ensures var s := PagerInit(memory, bits, entries).0;
            Walk(s.pages, s.root, VPageOf(a)) == Some(Leaf(a / 4096, 3))
  {
    hide PagerInit, Inv, RamRanges, RangesOk, Translate, VPageOf, Live, Walk, TreeWalk, Mappable, Covered, VNum;
    hide HugeSlot;
    BootMapsMemory(memory, bits, entries);
    BootedSound(PagerInit(memory, bits, entries).0);
    VNumOf(a);
  }

  lemma SystemTranslates(s: Mem, s': Mem, a: nat)
    requires Inv(s) && Inv(s') && SystemStays(s, s') && a < WINDOW_SIZE
    ensures Translate(s'.pages, s'.root, DIRECT_MAP_BASE + a) == Translate(s.pages, s.root, DIRECT_MAP_BASE + a)
  {
    hide VPageOf, Walk, TreeWalk, TreeOk, LedgerOk, HeadersOk, RegionsOk, OwnersOk, HugeSlotsOk;
    var v := VPageOf(DIRECT_MAP_BASE + a);
    DirectPageAt(a);
    WindowNumbers(v);
    WalkFollowsTree(s.pages, s.root, v);
    WalkFollowsTree(s'.pages, s'.root, v);
  }

  lemma LoadKeepsBoot(s: Mem, s': Mem, covered: nat)
    requires BootOk(s) && Covered(s, covered) && IdentityMapped(s) && s' == s.(loaded := s'.loaded)
    ensures BootOk(s') && PagerOk(s') && Covered(s', covered) && IdentityMapped(s')
  {
    hide LedgerOk, TablesOk, HeadersOk, TreeWalk, HugeSlot;
  }

  lemma BootedInv(s: Mem)
    requires BootOk(s) && IdentityMapped(s) && s.loaded == Some(s.root)
    ensures Inv(s) && forall h: nat :: !Live(s, h)
    ensures s.heaps == INITIAL_HEAPS.(sensitive := s.heaps.sensitive)
    ensures forall g :: 0 <= g < |s.table.headers| ==> s.table.headers[g].virt >= SENSITIVE_SPACE_BASE
  {
    hide LedgerOk, TablesOk, HugeSlot, VNum, TreeWalk;
    forall g | 0 <= g < |s.table.headers|
      ensures ClearOfSystem(s.table.headers[g].virt, s.table.headers[g].size)
    {
      HeaderBounds(s.heaps, s.table.headers, g);
    }
  }

  lemma BootedSound(s: Mem)
    requires Inv(s)
    ensures forall w :: Walk(s.pages, s.root, w) == TreeWalk(s.pages, s.root, w)
  {
    hide Sound, Walk, TreeWalk;
    WalksFollowTrees(s);
  }

  lemma DirectAddress(s: Mem, end: nat, a: nat)
    requires PagerOk(s) && Covered(s, end / PAGE_SIZE) && end % PAGE_SIZE == 0 && end <= WINDOW_SIZE && a < end
    ensures Translate(s.pages, s.root, DIRECT_MAP_BASE + a) == Some(a)
  {
    hide Walk, TreeWalk, VPageOf, Offset, Attrs, LedgerOk, HeadersOk, TreeOk;
    var v := VPageOf(DIRECT_MAP_BASE + a);
    DirectPageAt(a);
    assert a / PAGE_SIZE < end / PAGE_SIZE;
    WalkFollowsTree(s.pages, s.root, v);
    assert (DIRECT_MAP_BASE + a) % PAGE_SIZE == a % PAGE_SIZE;
  }

  lemma DirectPageAt(a: nat)
    requires a < WINDOW_SIZE
    ensures Offset(DIRECT_MAP_BASE, VPageOf(DIRECT_MAP_BASE + a)) == a / PAGE_SIZE
  {
    hide VPageOf, VNum;
    VNumOf(DIRECT_MAP_BASE + a);
    var d, p := DIRECT_MAP_BASE / PAGE_SIZE, a / PAGE_SIZE;
    assert (DIRECT_MAP_BASE + a) / PAGE_SIZE == d + p;
    SubtractModSpace((d + p) % SPACE_PAGES, d, p);
  }

  // ----- the books, for every memory map

  lemma {:induction false} MapEntriesBooks(s: Mem, entries: seq<E820Entry>, i: nat, last: nat)
    requires BooksOk(s) && i <= |entries| && !MapEntries(s, entries, i, last).0.failed
    ensures var s' := MapEntries(s, entries, i, last).0; BooksOk(s') && Extends(s, s')
    decreases |entries| - i
  {
    hide BooksOk, Extends, MapRange, Pow2;
    if i == |entries| || entries[i].len < 1 {
      ExtendsItself(s);
      if i < |entries| {
        MapEntriesBooks(s, entries, i + 1, last);
      }
    } else {
      var e := entries[i];
      var start := if e.base > last then last else e.base;
      var len := if e.base > last then (e.base - last + e.len) % TWO64 else e.len;
      var end := (start + len) % TWO64;
      if end >= Pow2(s.physBits) {
        ExtendsItself(s);
      } else {
        var s1 := MapRange(s, (DIRECT_MAP_BASE + start) % TWO64, start, len, DIRECT_FLAGS, 0);
        MapRangeBooks(s, (DIRECT_MAP_BASE + start) % TWO64, start, len, DIRECT_FLAGS, 0);
        MapEntriesBooks(s1, entries, i + 1, end);
        ExtendsTwice(s, s1, MapEntries(s1, entries, i + 1, end).0);
      }
    }
  }

  lemma MapRangeRecords(s: Mem, virt: nat, phys: nat, size: nat, flags: nat)
    requires RecordsOk(s) && !MapRange(s, virt, phys, size, flags, 0).failed
    ensures RecordsOk(MapRange(s, virt, phys, size, flags, 0))
    ensures MapRange(s, virt, phys, size, flags, 0).phys.ranges == s.phys.ranges
  {
    hide BooksOk, OwnersOk, MapRange, Behind;
    MapRangeBooks(s, virt, phys, size, flags, 0);
    ExtendedOwners(s, MapRange(s, virt, phys, size, flags, 0));
  }

  lemma IdentityRecords(s: Mem)
    requires RecordsOk(s) && !IdentityMaps(s).failed
    ensures RecordsOk(IdentityMaps(s)) && IdentityMaps(s).phys.ranges == s.phys.ranges
  {
    hide RecordsOk, MapRange;
    var firmware := MapRange(s, FIRMWARE_BASE, FIRMWARE_BASE, 0x00FF_FFFF, LINK_FLAGS, 0);
    var stack := MapRange(firmware, 0, 0, 0x8_0000, LINK_FLAGS, 0);
    MapRangeRecords(s, FIRMWARE_BASE, FIRMWARE_BASE, 0x00FF_FFFF, LINK_FLAGS);
    MapRangeRecords(firmware, 0, 0, 0x8_0000, LINK_FLAGS);
    MapRangeRecords(stack, 0x10_0000, 0x10_0000, 0x20_0000, LINK_FLAGS);
  }

  lemma RootRecords(s: Mem)
    requires RecordsOk(s) && !RootAllocated(s).failed
    ensures RecordsOk(RootAllocated(s)) && RootAllocated(s).phys.ranges == s.phys.ranges
  {
    hide LedgerOk, HeadersOk, AllocTable;
    AllocTableBooks(s);
    ExtendedOwners(s, AllocTable(s).0);
  }

  /** pager_init leaves the books right for every memory map whose RAM fits the bitmap, sorted or not. */
  lemma {:induction false} BooksFromBoot(memory: Memory, bits: nat, entries: seq<E820Entry>)
    requires |entries| <= MAX_RANGES && RangesOk(RamRanges(entries)) && !PagerInit(memory, bits, entries).0.failed
    ensures var s := PagerInit(memory, bits, entries).0;
            && RecordsOk(s) && s.phys.ranges == RangeTable(entries)
            && s.root == AllocTable(BeforeTables(memory, RangeTable(entries), bits)).1
  {
    hide MapEntries, IdentityMaps, BooksOk, OwnersOk, RamRanges, Behind, AllocTable;
    RangeTableOk(entries);
    var s0 := BeforeTables(memory, RangeTable(entries), bits);
    NothingTaken(memory, RangeTable(entries), bits);
    RootRecords(s0);
    var s1 := RootAllocated(s0);
    MapEntriesBooks(s1, entries, 0, 0);
    var s2 := MapEntries(s1, entries, 0, 0).0;
    ExtendedOwners(s1, s2);
    IdentityRecords(s2);
    LoadRecords(IdentityMaps(s2), PagerInit(memory, bits, entries).0);
  }

  lemma LoadRecords(s: Mem, s': Mem)
    requires RecordsOk(s) && s' == s.(loaded := s'.loaded)
    ensures RecordsOk(s')
  {
    hide LedgerOk, HeadersOk;
  }

  lemma NothingTaken(memory: Memory, ranges: seq<Range>, bits: nat)
    requires RangesOk(ranges)
    ensures RecordsOk(BeforeTables(memory, ranges, bits))
  {
    var s := BeforeTables(memory, ranges, bits);
    assert LedgerOk(s.phys, s.runs);
    assert HeadersOk(s.heaps, s.table.headers);
  }

  // ----- which memory is handed out

  lemma RangesStay(s: Mem, op: Op)
    ensures Step(s, op).phys.ranges == s.phys.ranges
  {
  }

  lemma {:induction false} RunsKeepRanges(s: Mem, ops: seq<Op>)
    ensures RunOps(s, ops).phys.ranges == s.phys.ranges
    decreases |ops|
  {
    hide Step;
    if ops != [] {
      RangesStay(s, ops[0]);
      RunsKeepRanges(Step(s, ops[0]), ops[1..]);
    }
  }

  /** A page of the range table lies wholly in an entry of type 1. */
  lemma RamPage(entries: seq<E820Entry>, p: nat)
    requires |entries| <= MAX_RANGES && InRam(RangeTable(entries), p)
    ensures exists i :: 0 <= i < |entries| && entries[i].kind == 1
                        && entries[i].base <= p * 4096 && (p + 1) * 4096 <= entries[i].base + entries[i].len
  {
    var table, ram := RangeTable(entries), RamRanges(entries);
    var k :| 0 <= k < |table| && table[k].base <= p * PAGE_SIZE && (p + 1) * PAGE_SIZE <= table[k].limit;
    assert k < |ram| && table[k] == ram[k];
    RamRangesExactly(entries, ram[k]);
  }

  /** Over every run from power-on, whatever the memory map: each page handed out, to a client or for a table, lies
      wholly in an entry of type 1; and each entry of type 1 that is not empty may be handed out. */
  lemma OnlyRamIsUsed(memory: Memory, bits: nat, entries: seq<E820Entry>, ops: seq<Op>)
    requires |entries| <= MAX_RANGES && RangesOk(RamRanges(entries))
    requires RunFits(PagerInit(memory, bits, entries).0, ops)
    requires !RunOps(PagerInit(memory, bits, entries).0, ops).failed
    ensures var s := RunOps(PagerInit(memory, bits, entries).0, ops);
            && (forall p :: p in s.phys.used ==>
                  exists i :: 0 <= i < |entries| && entries[i].kind == 1
                              && entries[i].base <= p * 4096 && (p + 1) * 4096 <= entries[i].base + entries[i].len)
            && (forall i :: 0 <= i < |entries| && entries[i].kind == 1 && entries[i].len > 0 ==>
                  Range(entries[i].base, entries[i].base + entries[i].len) in s.phys.ranges)
  {
    hide PagerInit, RunFits, RunOps, RangesOk, TableRunsStay, AllocTable, HeadersOk, OwnersOk, RamRanges;
    BooksFromBoot(memory, bits, entries);
    var boot := PagerInit(memory, bits, entries).0;
    RunsKeepRecords(boot, ops);
    RunsKeepRanges(boot, ops);
    var s := RunOps(boot, ops);
    forall p | p in s.phys.used
      ensures exists i :: 0 <= i < |entries| && entries[i].kind == 1
                          && entries[i].base <= p * 4096 && (p + 1) * 4096 <= entries[i].base + entries[i].len
    {
      assert InRam(s.phys.ranges, p);
      RamPage(entries, p);
    }
    forall i | 0 <= i < |entries| && entries[i].kind == 1 && entries[i].len > 0
      ensures Range(entries[i].base, entries[i].base + entries[i].len) in s.phys.ranges
    {
      RamRangesExactly(entries, Range(entries[i].base, entries[i].base + entries[i].len));
    }
  }
}
