/** The state that avmf.c and pager.c share, and their operations as functions on it. */
module MemoryState {
  import opened Words
  import opened Physical
  import opened Regions
  import opened Paging
  import opened Addresses

  /** Who holds a run of physical pages: a page table, the client of header h, or nobody
      (taken, but no header could be recorded). */
  datatype Owner = PageTable | Client(header: nat) | Stranded

  datatype Run = Run(start: nat, len: nat, owner: Owner) {
    predicate Has(p: nat) { start <= p < start + len }

    predicate Apart(other: Run) {
      start + len <= other.start || other.start + other.len <= start
    }
  }

  /** `runs` is a record of the physical runs handed out and not given back; the program keeps no
      such list. `failed` records that a page table could not be allocated: the program goes on with
      page 0 or NULL as the table, which is outside this model. */
  datatype Mem = Mem(
    phys: Phys, heaps: Heaps, table: Table,
    pages: Memory, root: nat, loaded: Option<nat>, physBits: nat,
    runs: seq<Run>, failed: bool)

  /** alloc_page_table: a page, a sensitive virtual page, a header (if one is left), a zeroed page. */
  function AllocTable(s: Mem): (r: (Mem, nat))
    ensures r.0.root == s.root && r.0.physBits == s.physBits && r.0.loaded == s.loaded
    ensures r.0.phys.ranges == s.phys.ranges
    ensures s.failed ==> r.0.failed
  {
    var (ph, phys) := AllocPhys(s.phys, PAGE_SIZE);
    var page := phys / PAGE_SIZE;
    var (heaps, virt) := AllocVirt(s.heaps, PAGE_SIZE, Sensitive);
    var table := if virt == 0 then s.table else AddRegion(s.table, virt, phys, PAGE_SIZE, LINK_FLAGS).0;
    (s.(phys := ph, heaps := heaps, table := table,
        pages := if virt == 0 then s.pages else ZeroPage(s.pages, page),
        runs := if phys == 0 then s.runs else s.runs + [Run(page, 1, PageTable)],
        failed := s.failed || phys == 0 || virt == 0 || !Fits(s.heaps, PAGE_SIZE, Sensitive)),
     page)
  }

  /** One level of pager_map: follow entry i of table t, or hang a new table there. */
  function Descend(s: Mem, t: nat, i: Index): (r: (Mem, nat))
    ensures r.0.root == s.root && r.0.physBits == s.physBits && r.0.loaded == s.loaded
    ensures r.0.phys.ranges == s.phys.ranges
    ensures s.failed ==> r.0.failed
  {
    var e := Entry(s.pages, t, i);
    if Present(e) then (s, Frame(e))
    else
      var (s', n) := AllocTable(s);
      (s'.(pages := Store(s'.pages, t, i, n * PAGE_SIZE + LINK_FLAGS)), n)
  }

  /** pager_map. */
  function MapPage(s: Mem, virt: nat, phys: nat, flags: nat): (r: Mem)
    ensures r.root == s.root && r.physBits == s.physBits && r.loaded == s.loaded
    ensures r.phys.ranges == s.phys.ranges
    ensures s.failed ==> r.failed
  {
    if phys >= Pow2(s.physBits) then s
    else
      var v := VPageOf(virt);
      var (s1, pdpt) := Descend(s, s.root, v.i4);
      var (s2, pd) := Descend(s1, pdpt, v.i3);
      if Huge(flags) then s2.(pages := Store(s2.pages, pd, v.i2, HugeEntry(phys, flags)))
      else
        var (s3, pt) := Descend(s2, pd, v.i2);
        s3.(pages := Store(s3.pages, pt, v.i1, SmallEntry(phys, flags)))
  }

  /** pager_unmap, on the table last loaded. */
  function Unmap(s: Mem, virt: nat): Mem {
    if s.loaded.None? then s
    else
      var v := VPageOf(virt);
      var e4 := Entry(s.pages, s.loaded.value, v.i4);
      if !Present(e4) then s
      else
        var e3 := Entry(s.pages, Frame(e4), v.i3);
        if !Present(e3) then s
        else
          var e2 := Entry(s.pages, Frame(e3), v.i2);
          if Huge(e2) then s.(pages := Store(s.pages, Frame(e3), v.i2, ClearPresent(e2)))
          else if !Present(e2) then s
          else
            s.(pages := Store(s.pages, Frame(e2), v.i1, ClearPresent(Entry(s.pages, Frame(e2), v.i1))))
  }

  function ClearPresent(e: nat): nat { if Present(e) then e - 1 else e }

  predicate Promotes(virt: nat, phys: nat, size: nat, done: nat)
    requires done <= size
  {
    && size - done >= SLOT_SIZE
    && (virt + done) % TWO64 % SLOT_SIZE == 0
    && (phys + done) % TWO64 % SLOT_SIZE == 0
  }

  /** pager_map_range from offset `done` on: 2 MiB steps where size and alignment allow, else 4 KiB. */
  function MapRange(s: Mem, virt: nat, phys: nat, size: nat, flags: nat, done: nat): (r: Mem)
    ensures r.root == s.root && r.physBits == s.physBits && r.loaded == s.loaded
    ensures r.phys.ranges == s.phys.ranges
    ensures s.failed ==> r.failed
    decreases size - done
  {
    if done >= size then s
    else if Promotes(virt, phys, size, done) then
      MapRange(MapPage(s, (virt + done) % TWO64, (phys + done) % TWO64, OrHuge(flags)),
               virt, phys, size, flags, done + SLOT_SIZE)
    else
      MapRange(MapPage(s, (virt + done) % TWO64, (phys + done) % TWO64, flags),
               virt, phys, size, flags, done + PAGE_SIZE)
  }

  /** The plain loop: every page on its own. */
  function MapPages(s: Mem, virt: nat, phys: nat, size: nat, flags: nat, done: nat): (r: Mem)
    ensures r.root == s.root && r.physBits == s.physBits
    ensures s.failed ==> r.failed
    decreases size - done
  {
    if done >= size then s
    else
      MapPages(MapPage(s, (virt + done) % TWO64, (phys + done) % TWO64, flags),
               virt, phys, size, flags, done + PAGE_SIZE)
  }

  /** avmf_alloc: 0 on failure. Pages taken before a failure to record them stay taken. */
  function Alloc(s: Mem, size: nat, kind: AllocType, flags: nat): (r: (Mem, nat))
    ensures r.0.root == s.root && r.0.physBits == s.physBits && r.0.loaded == s.loaded
    ensures r.0.phys.ranges == s.phys.ranges
    ensures s.failed ==> r.0.failed
  {
    var (heaps, virt) := AllocVirt(s.heaps, size, kind);
    var s1 := s.(heaps := heaps);
    if virt == 0 then (s1, 0)
    else
      var trueSize := Align4k(size);
      var (ph, phys) := AllocPhys(s1.phys, trueSize);
      if phys == 0 then (s1.(phys := ph), 0)
      else
        var (table, ok) := AddRegion(s1.table, virt, phys, trueSize, flags);
        var owner := if ok then Client(|s.table.headers|) else Stranded;
        var s2 := s1.(phys := ph, table := table,
                      runs := s1.runs + [Run(phys / PAGE_SIZE, trueSize / PAGE_SIZE, owner)]);
        if !ok then (s2, 0)
        else (MapRange(s2, virt, phys, trueSize, flags, 0), virt)
  }

  /** The runs without the one held by header h. */
  function DropClient(runs: seq<Run>, h: nat): (r: seq<Run>)
    decreases |runs|
  {
    if runs == [] then []
    else if runs[0].owner == Client(h) then runs[1..]
    else [runs[0]] + DropClient(runs[1..], h)
  }

  /** avmf_free: clears the header's bits and unmaps the page of `virt`; the header stays. */
  function Free(s: Mem, virt: nat): (r: Mem)
    ensures r.root == s.root && r.physBits == s.physBits && r.loaded == s.loaded && r.failed == s.failed
    ensures r.phys.ranges == s.phys.ranges
  {
    var (table, found) := Find(s.table, virt);
    match found
    case None => s.(table := table)
    case Some(h) =>
      var hd := s.table.headers[h];
      Unmap(s.(table := table,
               phys := s.phys.(used := s.phys.used - Physical.Pages(hd.phys / PAGE_SIZE, hd.size / PAGE_SIZE)),
               runs := DropClient(s.runs, h)),
            virt)
  }
}
