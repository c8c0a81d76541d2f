/** What one pager_map and one pager_map_range do to the translation, and what they keep. */
module Mapping {
  import opened Words
  import opened Physical
  import opened Regions
  import opened Paging
  import opened Addresses
  import opened MemoryState

  // ----- the invariant of the pager

  ghost predicate Held(runs: seq<Run>, p: nat) {
    exists k :: 0 <= k < |runs| && runs[k].Has(p)
  }

  /** The runs handed out are disjoint, lie in the bitmap above page 0 and in RAM, and are exactly the set
      bits. */
  ghost predicate LedgerOk(ph: Phys, runs: seq<Run>) {
    && RangesOk(ph.ranges)
    && (forall k :: 0 <= k < |runs| ==>
                      runs[k].len >= 1 && runs[k].start >= 1 && runs[k].start + runs[k].len <= BITMAP_PAGES)
    && (forall i, j :: 0 <= i < j < |runs| ==> runs[i].Apart(runs[j]))
    && (forall p :: p in ph.used <==> Held(runs, p))
    && (forall p :: p in ph.used ==> InRam(ph.ranges, p))
  }

  /** The tables form a tree of distinct pages, each a run of its own that nobody else holds. */
  ghost predicate TablesOk(m: Memory, root: nat, runs: seq<Run>) {
    && TreeOk(m, root)
    && forall q :: TableAt(m, root, q).Some? ==> Run(TableAt(m, root, q).value, 1, PageTable) in runs
  }

  /** What the bitmap, the runs, the heaps and the header list keep, whatever is in table memory. */
  ghost predicate BooksOk(s: Mem) {
    && !s.failed
    && LedgerOk(s.phys, s.runs)
    && HeadersOk(s.heaps, s.table.headers)
    && CacheOk(s.table)
  }

  ghost predicate PagerOk(s: Mem) {
    BooksOk(s) && 32 <= s.physBits <= 52 && TablesOk(s.pages, s.root, s.runs)
  }

  /** Page-table work only adds: runs for tables, headers behind the heaps. */
  ghost predicate Extends(s: Mem, s': Mem) {
    && s.runs <= s'.runs
    && (forall k :: |s.runs| <= k < |s'.runs| ==> s'.runs[k].owner == PageTable)
    && s.table.headers <= s'.table.headers
    && (forall k :: |s.table.headers| <= k < |s'.table.headers| ==>
                      s'.table.headers[k].virt >= SENSITIVE_SPACE_BASE)
    && s'.table.cached == s.table.cached
    && s'.phys.ranges == s.phys.ranges
    && (forall i: Interval :: Behind(s.heaps, i) ==> Behind(s'.heaps, i))
    && s'.heaps == s.heaps.(sensitive := s'.heaps.sensitive)
  }

  ghost predicate SameTranslation(s: Mem, s': Mem) {
    forall w :: TreeWalk(s'.pages, s'.root, w) == TreeWalk(s.pages, s.root, w)
                && HugeSlot(s'.pages, s'.root, w) == HugeSlot(s.pages, s.root, w)
  }

  // ----- allocation

  /** A run just taken from the bitmap is disjoint from every run handed out. */
  lemma TakenRunIsNew(ph: Phys, runs: seq<Run>, size: nat, owner: Owner)
    requires LedgerOk(ph, runs) && 0 < size && size + PAGE_SIZE <= TWO64
    requires AllocPhys(ph, size).1 != 0
    ensures var (ph', phys) := AllocPhys(ph, size);
            var run := Run(phys / PAGE_SIZE, Align4k(size) / PAGE_SIZE, owner);
            && LedgerOk(ph', runs + [run])
            && ph'.ranges == ph.ranges && phys % PAGE_SIZE == 0
            && (forall p :: run.Has(p) ==> !Held(runs, p))
  {
    AllocPhysFirstFit(ph, size);
    var (ph', phys) := AllocPhys(ph, size);
    var run := Run(phys / PAGE_SIZE, Align4k(size) / PAGE_SIZE, owner);
    forall p | run.Has(p)
      ensures !Held(runs, p)
    {
      assert p !in ph.used;
    }
    TakenFromRam(ph, size);
    forall k | 0 <= k < |runs|
      ensures runs[k].Apart(run)
    {
      var b := if runs[k].start <= run.start then run.start else runs[k].start;
      if !runs[k].Apart(run) {
        assert run.Has(b) && runs[k].Has(b);
      }
    }
    forall p
      ensures p in ph'.used <==> Held(runs + [run], p)
    {
      if Held(runs, p) {
        var k :| 0 <= k < |runs| && runs[k].Has(p);
        assert (runs + [run])[k].Has(p);
      }
      if run.Has(p) {
        assert (runs + [run])[|runs|].Has(p);
      }
    }
  }

  /** What is taken lies in one range. */
  lemma TakenFromRam(ph: Phys, size: nat)
    requires RangesOk(ph.ranges) && 0 < size && size + PAGE_SIZE <= TWO64 && AllocPhys(ph, size).1 != 0
    ensures var start, need := AllocPhys(ph, size).1 / PAGE_SIZE, Align4k(size) / PAGE_SIZE;
            forall p: nat :: start <= p < start + need ==> InRam(ph.ranges, p)
  {
    AllocPhysFirstFit(ph, size);
    hide AllocPhys, Align4k, RangesOk;
    var start, need := AllocPhys(ph, size).1 / PAGE_SIZE, Align4k(size) / PAGE_SIZE;
    var k: nat :| InOneRange(ph, k, start, need);
    forall p: nat | start <= p < start + need
      ensures InRam(ph.ranges, p)
    {
      assert ph.ranges[k].base <= p * PAGE_SIZE && (p + 1) * PAGE_SIZE <= ph.ranges[k].limit;
    }
  }

  lemma HeldByTable(m: Memory, root: nat, runs: seq<Run>, t: nat)
    requires TablesOk(m, root, runs) && IsTable(m, root, t)
    ensures Held(runs, t)
  {
    var q :| TableAt(m, root, q) == Some(t);
    var k :| 0 <= k < |runs| && runs[k] == Run(t, 1, PageTable);
    assert runs[k].Has(t);
  }

  /** A page taken for a table was nobody's, and the books are kept. */
  lemma AllocTableBooks(s: Mem)
    requires BooksOk(s) && !AllocTable(s).0.failed
    ensures var (s', n) := AllocTable(s);
            && BooksOk(s') && Extends(s, s') && s'.pages == ZeroPage(s.pages, n)
            && !Held(s.runs, n) && n < FRAME_LIMIT
            && s'.runs == s.runs + [Run(n, 1, PageTable)]
  {
    var (s', n) := AllocTable(s);
    AlignOnePage();
    assert RangesOk(s.phys.ranges) && HeapsOk(s.heaps);
    hide Align4k, LedgerOk, HeadersOk, RangesOk, HeapsOk;
    AllocPhysFirstFit(s.phys, PAGE_SIZE);
    TakenRunIsNew(s.phys, s.runs, PAGE_SIZE, PageTable);
    assert Run(n, 1, PageTable).Has(n);
    AllocVirtIsNew(s.heaps, PAGE_SIZE, Sensitive);
    AddRegionKeepsHeaders(s.heaps, s.table, PAGE_SIZE, Sensitive, n * PAGE_SIZE, LINK_FLAGS);
  }

  /** The header of a new table, if one is left, records its page: the records translate the table's virtual
      address to it. */
  lemma TableIsRecorded(s: Mem)
    requires BooksOk(s) && !AllocTable(s).0.failed
    ensures var (s', n) := AllocTable(s);
            && n * 4096 == AllocPhys(s.phys, 4096).1
            && s'.heaps == s.heaps.(sensitive := s.heaps.sensitive + 4096)
            && s'.table.headers == (if |s.table.headers| < 2048
                                    then s.table.headers + [Header(s.heaps.sensitive, n * 4096, 4096, 3)]
                                    else s.table.headers)
            && (|s.table.headers| < 2048 ==>
                  forall a: nat :: 0 <= a - s.heaps.sensitive < 4096 ==>
                    VirtToPhys(s'.table, a).1 == n * 4096 + (a - s.heaps.sensitive))
  {
    AllocTableBooks(s);
    var (s', n) := AllocTable(s);
    AlignOnePage();
    assert RangesOk(s.phys.ranges);
    AllocPhysFirstFit(s.phys, PAGE_SIZE);
    hide Align4k, LedgerOk, HeadersOk, RangesOk, AllocPhys, VirtToPhys;
    if |s.table.headers| < 2048 {
      forall a: nat | 0 <= a - s.heaps.sensitive < 4096
        ensures VirtToPhys(s'.table, a).1 == n * 4096 + (a - s.heaps.sensitive)
      {
        HeaderTranslates(s'.heaps, s'.table, |s.table.headers|, a);
      }
    }
  }

  /** A new page table is no table yet. */
  lemma AllocTableOk(s: Mem)
    requires PagerOk(s) && !AllocTable(s).0.failed
    ensures var (s', n) := AllocTable(s);
            && BooksOk(s') && Extends(s, s') && s'.pages == ZeroPage(s.pages, n)
            && !IsTable(s.pages, s.root, n) && n < FRAME_LIMIT
            && s'.runs == s.runs + [Run(n, 1, PageTable)]
  {
    hide BooksOk, TablesOk, AllocTable;
    AllocTableBooks(s);
    var n := AllocTable(s).1;
    if IsTable(s.pages, s.root, n) {
      HeldByTable(s.pages, s.root, s.runs, n);
    }
  }

  // ----- the books of pager_map, whatever is in table memory

  lemma ExtendsTwice(s: Mem, s1: Mem, s2: Mem)
    requires Extends(s, s1) && Extends(s1, s2)
    ensures Extends(s, s2)
  {
    hide Behind;
  }

  lemma DescendBooks(s: Mem, t: nat, i: Index)
    requires BooksOk(s) && !Descend(s, t, i).0.failed
    ensures BooksOk(Descend(s, t, i).0) && Extends(s, Descend(s, t, i).0)
  {
    hide LedgerOk, HeadersOk, Behind, AllocTable;
    if !Present(Entry(s.pages, t, i)) {
      AllocTableBooks(s);
    }
  }

  lemma MapPageBooks(s: Mem, virt: nat, phys: nat, flags: nat)
    requires BooksOk(s) && !MapPage(s, virt, phys, flags).failed
    ensures BooksOk(MapPage(s, virt, phys, flags)) && Extends(s, MapPage(s, virt, phys, flags))
  {
    hide LedgerOk, HeadersOk, Behind, Descend, VPageOf, Pow2, Store;
    if phys < Pow2(s.physBits) {
      var v := VPageOf(virt);
      var (s1, pdpt) := Descend(s, s.root, v.i4);
      var (s2, pd) := Descend(s1, pdpt, v.i3);
      DescendBooks(s, s.root, v.i4);
      DescendBooks(s1, pdpt, v.i3);
      ExtendsTwice(s, s1, s2);
      if !Huge(flags) {
        var s3 := Descend(s2, pd, v.i2).0;
        DescendBooks(s2, pd, v.i2);
        ExtendsTwice(s, s2, s3);
      }
    }
  }

  /** pager_map_range keeps the books and only adds runs and headers for tables. */
  lemma {:induction false} MapRangeBooks(s: Mem, virt: nat, phys: nat, size: nat, flags: nat, done: nat)
    requires BooksOk(s) && !MapRange(s, virt, phys, size, flags, done).failed
    ensures var s' := MapRange(s, virt, phys, size, flags, done); BooksOk(s') && Extends(s, s')
    decreases size - done
  {
    hide BooksOk, MapPage, Extends;
    if done < size {
      var huge := Promotes(virt, phys, size, done);
      var s1 := MapPage(s, (virt + done) % TWO64, (phys + done) % TWO64, if huge then OrHuge(flags) else flags);
      var next := if huge then done + SLOT_SIZE else done + PAGE_SIZE;
      assert MapRange(s, virt, phys, size, flags, done) == MapRange(s1, virt, phys, size, flags, next);
      MapPageBooks(s, (virt + done) % TWO64, (phys + done) % TWO64, if huge then OrHuge(flags) else flags);
      MapRangeBooks(s1, virt, phys, size, flags, next);
      ExtendsTwice(s, s1, MapRange(s1, virt, phys, size, flags, next));
    } else {
      ExtendsItself(s);
    }
  }

  lemma ExtendsItself(s: Mem)
    ensures Extends(s, s)
  {
  }

  // ----- one mapping

  /** A new table is owned by the run it was taken with. */
  lemma AttachOwned(m: Memory, root: nat, runs: seq<Run>, p: Node, i: Index, n: nat)
    requires TablesOk(m, root, runs) && TableAt(m, root, p).Some? && p.Depth() < 3
    requires !Present(Entry(m, TableAt(m, root, p).value, i)) && !IsTable(m, root, n) && n < FRAME_LIMIT
    ensures var m' := Attach(m, TableAt(m, root, p).value, i, n);
            TablesOk(m', root, runs + [Run(n, 1, PageTable)]) && TableAt(m', root, Child(p, i)) == Some(n)
  {
    hide TreeOk, Attach, IsTable;
    AttachTables(m, root, p, i, n);
  }

  lemma DescendNewTables(s: Mem, p: Node, i: Index)
    requires PagerOk(s) && TableAt(s.pages, s.root, p).Some? && p.Depth() < 3
    requires !Present(Entry(s.pages, TableAt(s.pages, s.root, p).value, i))
    requires !Descend(s, TableAt(s.pages, s.root, p).value, i).0.failed
    ensures var (s', n) := Descend(s, TableAt(s.pages, s.root, p).value, i);
            && PagerOk(s') && Extends(s, s')
            && s'.pages == Attach(s.pages, TableAt(s.pages, s.root, p).value, i, n)
            && !IsTable(s.pages, s.root, n) && n < FRAME_LIMIT
            && TableAt(s'.pages, s'.root, Child(p, i)) == Some(n)
  {
    hide LedgerOk, HeadersOk, AllocTable, Behind, IsTable, TablesOk, Store, ZeroPage, TableAt, Entry, Present;
    AllocTableOk(s);
    AttachOwned(s.pages, s.root, s.runs, p, i, AllocTable(s).1);
  }

  /** Following or creating a table changes no translation. */
  lemma DescendOk(s: Mem, p: Node, i: Index)
    requires PagerOk(s) && TableAt(s.pages, s.root, p).Some? && p.Depth() < 3
    requires var e := Entry(s.pages, TableAt(s.pages, s.root, p).value, i); !(Present(e) && Huge(e))
    requires !Descend(s, TableAt(s.pages, s.root, p).value, i).0.failed
    ensures var (s', n) := Descend(s, TableAt(s.pages, s.root, p).value, i);
            && PagerOk(s') && Extends(s, s') && SameTranslation(s, s')
            && TableAt(s'.pages, s'.root, Child(p, i)) == Some(n)
  {
    hide LedgerOk, HeadersOk, Behind, AllocTable, Attach, TreeOk, Store;
    var t := TableAt(s.pages, s.root, p).value;
    if Present(Entry(s.pages, t, i)) {
      TreeLevel(s.pages, s.root, p, i);
      hide PagerOk;
    } else {
      DescendNewTables(s, p, i);
      var (s', n) := Descend(s, t, i);
      forall w
        ensures TreeWalk(s'.pages, s'.root, w) == TreeWalk(s.pages, s.root, w)
                && HugeSlot(s'.pages, s'.root, w) == HugeSlot(s.pages, s.root, w)
      {
        AttachWalk(s.pages, s.root, p, i, n, w);
      }
      hide PagerOk, Extends, TreeWalk, HugeSlot, Descend;
    }
  }

  /** Down to the PD of a page. */
  lemma ReachPd(s: Mem, v: VPage)
    requires PagerOk(s)
    ensures var (s1, pdpt) := Descend(s, s.root, v.i4);
            var (s2, pd) := Descend(s1, pdpt, v.i3);
            !s2.failed ==>
              && PagerOk(s2) && Extends(s, s2) && SameTranslation(s, s2)
              && TableAt(s2.pages, s2.root, PdNode(v)) == Some(pd)
  {
    hide Descend, TreeWalk, HugeSlot, LedgerOk, HeadersOk;
    var (s1, pdpt) := Descend(s, s.root, v.i4);
    var (s2, pd) := Descend(s1, pdpt, v.i3);
    if !s2.failed {
      assert TableAt(s.pages, s.root, Root) == Some(s.root);
      TreeLevel(s.pages, s.root, Root, v.i4);
      DescendOk(s, Root, v.i4);
      TreeLevel(s1.pages, s1.root, PdptNode(v), v.i3);
      DescendOk(s1, PdptNode(v), v.i3);
      ExtendsTwice(s, s1, s2);
    }
  }

  lemma NotHugeSlot(s: Mem, v: VPage)
    requires !HugeSlot(s.pages, s.root, v) && TableAt(s.pages, s.root, PdNode(v)).Some?
    ensures var e := Entry(s.pages, TableAt(s.pages, s.root, PdNode(v)).value, v.i2); !(Present(e) && Huge(e))
  {
  }

  /** pager_map of a 4 KiB page is a point update of the translation, unless its 2 MiB slot is
      already mapped whole. */
  lemma MapSmall(s: Mem, virt: nat, phys: nat, flags: nat)
    requires PagerOk(s) && phys < Pow2(s.physBits) && !Huge(flags)
    requires !HugeSlot(s.pages, s.root, VPageOf(virt))
    requires !MapPage(s, virt, phys, flags).failed
    ensures var s' := MapPage(s, virt, phys, flags);
            && PagerOk(s') && Extends(s, s')
            && forall w :: HugeSlot(s'.pages, s'.root, w) == HugeSlot(s.pages, s.root, w)
                           && TreeWalk(s'.pages, s'.root, w)
                              == if w == VPageOf(virt) then Some(Leaf(phys / PAGE_SIZE, Attrs(flags)))
                                 else TreeWalk(s.pages, s.root, w)
  {
    hide LedgerOk, HeadersOk, Behind, TreeWalk, HugeSlot, Descend;
    var v := VPageOf(virt);
    var s' := MapPage(s, virt, phys, flags);
    var (s1, pdpt) := Descend(s, s.root, v.i4);
    var (s2, pd) := Descend(s1, pdpt, v.i3);
    var (s3, pt) := Descend(s2, pd, v.i2);
    ReachPd(s, v);
    NotHugeSlot(s2, v);
    DescendOk(s2, PdNode(v), v.i2);
    PhysFits(s.physBits, phys);
    SmallEntryMaps(phys, flags);
    var e := SmallEntry(phys, flags);
    SmallLeafTables(s3.pages, s3.root, v, e);
    forall w
      ensures HugeSlot(s'.pages, s'.root, w) == HugeSlot(s.pages, s.root, w)
      ensures TreeWalk(s'.pages, s'.root, w)
              == if w == v then Some(Leaf(phys / PAGE_SIZE, Attrs(flags))) else TreeWalk(s.pages, s.root, w)
    {
      SmallLeafWalk(s3.pages, s3.root, v, e, w);
      assert TreeWalk(s3.pages, s3.root, w) == TreeWalk(s2.pages, s2.root, w) == TreeWalk(s.pages, s.root, w);
    }
  }

  lemma PhysFits(bits: nat, phys: nat)
    requires bits <= 52 && phys < Pow2(bits)
    ensures phys < ENTRY_LIMIT
  {
    Pow2Values();
    Pow2Monotone(bits, 52);
  }

  lemma HugeFlagSet(flags: nat)
    ensures Huge(OrHuge(flags))
  {
    assert (flags + HUGE_FLAG) / HUGE_FLAG == flags / HUGE_FLAG + 1;
  }

  /** Writing the entry of a whole slot once its PD is there. */
  lemma SetSlot(s: Mem, v: VPage, phys: nat, flags: nat, w: VPage)
    requires PagerOk(s) && phys < ENTRY_LIMIT && !Huge(flags)
    requires TableAt(s.pages, s.root, PdNode(v)).Some?
    ensures var e := HugeEntry(phys, OrHuge(flags));
            var m' := Store(s.pages, TableAt(s.pages, s.root, PdNode(v)).value, v.i2, e);
            && TablesOk(m', s.root, s.runs)
            && HugeSlot(m', s.root, w) == (PtNode(w) == PtNode(v) || HugeSlot(s.pages, s.root, w))
            && TreeWalk(m', s.root, w)
               == if PtNode(w) == PtNode(v) then Some(Leaf(SlotStart(phys) + w.i1, Attrs(flags)))
                  else TreeWalk(s.pages, s.root, w)
  {
    HugeEntryMaps(phys, flags, w.i1);
    var e := HugeEntry(phys, OrHuge(flags));
    SlotTables(s.pages, s.root, v, e);
    SlotWalk(s.pages, s.root, v, e, w);
  }

  /** pager_map of a 2 MiB page sets the 512 pages of its slot and no other; addresses inside slots are rounded
      down. */
  lemma MapHuge(s: Mem, virt: nat, phys: nat, flags: nat)
    requires PagerOk(s) && phys < Pow2(s.physBits) && !Huge(flags)
    requires !MapPage(s, virt, phys, OrHuge(flags)).failed
    ensures var s' := MapPage(s, virt, phys, OrHuge(flags));
            var slot := PtNode(VPageOf(virt));
            && PagerOk(s') && Extends(s, s')
            && forall w :: HugeSlot(s'.pages, s'.root, w) == (PtNode(w) == slot || HugeSlot(s.pages, s.root, w))
                           && TreeWalk(s'.pages, s'.root, w)
                              == if PtNode(w) == slot then Some(Leaf(SlotStart(phys) + w.i1, Attrs(flags)))
                                 else TreeWalk(s.pages, s.root, w)
  {
    hide LedgerOk, HeadersOk, Behind, TreeWalk, HugeSlot, Descend, Pow2, Attrs, HugeEntry, SlotStart;
    var v := VPageOf(virt);
    HugeFlagSet(flags);
    PhysFits(s.physBits, phys);
    ReachPd(s, v);
    var s2 := Descend(Descend(s, s.root, v.i4).0, Descend(s, s.root, v.i4).1, v.i3).0;
    forall w
      ensures var s' := MapPage(s, virt, phys, OrHuge(flags));
              && TablesOk(s'.pages, s'.root, s'.runs)
              && HugeSlot(s'.pages, s'.root, w) == (PtNode(w) == PtNode(v) || HugeSlot(s.pages, s.root, w))
              && TreeWalk(s'.pages, s'.root, w)
                 == if PtNode(w) == PtNode(v) then Some(Leaf(SlotStart(phys) + w.i1, Attrs(flags)))
                    else TreeWalk(s.pages, s.root, w)
    {
      SetSlot(s2, v, phys, flags, w);
      assert TreeWalk(s2.pages, s2.root, w) == TreeWalk(s.pages, s.root, w);
    }
  }
}
