/** avmf.c and pager.c as they run: statics updated in place, each operation equal to its function. */
module Manager {
  import opened Words
  import opened Physical
  import opened Regions
  import opened Paging
  import opened Addresses
  import opened MemoryState
  import opened Mapping
  import opened HeaderList
  import opened AvmfRuns
  import opened Boot
  import Spec = MemoryState
  import Virtual = Regions

  /** Pages could be taken, so the size is that of a run in the bitmap. */
  lemma TakenSize(ph: Phys, size: nat)
    requires RangesOk(ph.ranges) && AllocPhys(ph, Align4k(size)).1 != 0
    ensures Align4k(size) + SLOT_SIZE <= TWO64
  {
    hide RangesOk;
    AlignedFits(size);
    if Align4k(size) > 0 {
      AllocPhysFirstFit(ph, Align4k(size));
    }
  }

  lemma AlignedFits(size: nat)
    ensures Align4k(size) + PAGE_SIZE <= TWO64 && Align4k(Align4k(size)) == Align4k(size)
  {
  }

  class MemoryManager {
    const bitmap: PhysBitmap
    const regions: RegionList
    var heapUser: nat
    var heapKernel: nat
    var heapDriver: nat
    var heapSensitive: nat
    var memory: Memory
    var firmwarePml4: nat
    var mappedPml4: Option<nat>
    const cpuPhysBits: nat
    ghost var runs: seq<Run>
    ghost var failed: bool

    ghost predicate Valid()
      reads this, bitmap, bitmap.words, bitmap.base, bitmap.limit, regions, regions.nodes
    {
      bitmap.Valid() && RangesOk(bitmap.Ranges()) && regions.Valid()
    }

    ghost function State(): (s: Mem)
      requires Valid()
      reads this, bitmap, bitmap.words, bitmap.base, bitmap.limit, regions, regions.nodes
      ensures s.root == firmwarePml4 && s.loaded == mappedPml4 && s.physBits == cpuPhysBits && s.pages == memory
      ensures s.heaps == Heaps(heapUser, heapKernel, heapDriver, heapSensitive)
    {
      Mem(bitmap.Contents(), Heaps(heapUser, heapKernel, heapDriver, heapSensitive), regions.Contents(),
          memory, firmwarePml4, mappedPml4, cpuPhysBits, runs, failed)
    }

    lemma StateRanges()
      requires Valid()
      ensures RangesOk(State().phys.ranges)
    {
    }

    /** The statics of both files before pager_init has run. */
    constructor (memory: Memory, bits: nat)
      ensures Valid() && fresh(bitmap) && fresh(bitmap.words) && fresh(bitmap.base) && fresh(bitmap.limit)
      ensures fresh(regions) && fresh(regions.nodes)
      ensures bitmap.used == {} && forall i :: 0 <= i < MAX_RANGES ==> bitmap.base[i] == bitmap.limit[i] == 0
      ensures State() == BeforeTables(memory, bitmap.Ranges(), bits)
    {
      bitmap := new PhysBitmap();
      regions := new RegionList();
      heapUser, heapKernel, heapDriver, heapSensitive :=
        USER_SPACE_BASE, KERNEL_SPACE_BASE, DRIVER_SPACE_BASE, SENSITIVE_SPACE_BASE;
      this.memory, firmwarePml4, mappedPml4, cpuPhysBits := memory, 0, None, bits;
      runs, failed := [], false;
    }

    /** *heap_ptr += the size asked for. */
    method Bump(kind: AllocType, size: nat)
      requires Valid()
      modifies `heapUser, `heapKernel, `heapDriver, `heapSensitive
      ensures Valid()
      ensures State() == var s := old(State());
                         s.(heaps := s.heaps.With(kind, (s.heaps.Top(kind) + size) % TWO64))
    {
      hide RangesOk, PhysBitmap.Ranges, RegionList.Contents;
      match kind {
        case User => heapUser := (heapUser + size) % TWO64;
        case Kernel => heapKernel := (heapKernel + size) % TWO64;
        case Driver => heapDriver := (heapDriver + size) % TWO64;
        case Sensitive => heapSensitive := (heapSensitive + size) % TWO64;
        case Unknown =>
      }
    }

    method AllocVirt(size: nat, kind: AllocType) returns (virt: nat)
      requires Valid()
      modifies `heapUser, `heapKernel, `heapDriver, `heapSensitive
      ensures Valid() && var (heaps, v) := Virtual.AllocVirt(old(State()).heaps, size, kind);
                         State() == old(State()).(heaps := heaps) && virt == v
    {
      hide State, Valid, Align4k;
      var top, end := 0, 0;
      match kind {
        case User => top, end := heapUser, DIRECT_MAP_BASE;
        case Kernel => top, end := heapKernel, DRIVER_SPACE_BASE;
        case Driver => top, end := heapDriver, SENSITIVE_SPACE_BASE;
        case Sensitive => top, end := heapSensitive, TWO64 - 1;
        case Unknown => return 0;
      }
      var trueSize := Align4k(size);
      if (top + trueSize) % TWO64 > end {
        return 0;
      }
      virt := top;
      Bump(kind, trueSize);
    }

    method AllocPageTable() returns (page: nat)
      requires Valid()
      modifies this, bitmap`lastAllocPage, bitmap`used, bitmap.words
      modifies regions`headerIndex, regions`head, regions.nodes
      ensures Valid() && (State(), page) == AllocTable(old(State()))
    {
      hide AllocPhys, AddRegion, Virtual.AllocVirt, RangesOk, Fits, ZeroPage, State, Valid;
      ghost var fits := Fits(State().heaps, PAGE_SIZE, Sensitive);
      var phys := TakePages(PAGE_SIZE);
      var virt := AllocVirt(PAGE_SIZE, Sensitive);
      page := phys / PAGE_SIZE;
      if virt != 0 {
        RecordTable(virt, phys);
        Clear(page);
      }
      Account(page, phys != 0, virt != 0 && fits);
    }

    /** avmf_alloc_region for a page table; its result is not looked at. */
    method RecordTable(virt: nat, phys: nat)
      requires Valid()
      modifies regions`headerIndex, regions`head, regions.nodes
      ensures Valid()
      ensures State() == var s := old(State());
                         s.(table := AddRegion(s.table, virt, phys, PAGE_SIZE, LINK_FLAGS).0)
    {
      hide AddRegion, RangesOk;
      var _ := regions.AllocRegion(virt, phys, PAGE_SIZE, LINK_FLAGS);
    }

    /** Zeroes the 512 entries of a new table. */
    method Clear(page: nat)
      requires Valid()
      modifies `memory
      ensures Valid() && State() == var s := old(State()); s.(pages := ZeroPage(s.pages, page))
    {
      hide ZeroPage, RangesOk;
      memory := ZeroPage(memory, page);
    }

    /** The record of a table allocation; no field of the program changes. */
    ghost method Account(page: nat, taken: bool, addressed: bool)
      requires Valid()
      modifies `runs, `failed
      ensures Valid()
      ensures State() == var s := old(State());
                         s.(runs := if taken then s.runs + [Run(page, 1, PageTable)] else s.runs,
                            failed := s.failed || !taken || !addressed)
    {
      hide RangesOk;
      runs := if taken then runs + [Run(page, 1, PageTable)] else runs;
      failed := failed || !taken || !addressed;
    }

    /** A word written to table memory. */
    method WriteEntry(page: nat, i: Index, e: nat)
      requires Valid()
      modifies `memory
      ensures Valid() && State() == old(State()).(pages := Store(old(State()).pages, page, i, e))
    {
      hide Store, RangesOk;
      memory := Store(memory, page, i, e);
    }

    method ReadEntry(page: nat, i: Index) returns (e: nat)
      requires Valid()
      ensures e == Entry(State().pages, page, i)
    {
      e := Entry(memory, page, i);
    }

    /** The table under an entry, allocated if the entry is not present. */
    method NextTable(t: nat, i: Index) returns (n: nat)
      requires Valid()
      modifies this, bitmap`lastAllocPage, bitmap`used, bitmap.words
      modifies regions`headerIndex, regions`head, regions.nodes
      ensures Valid() && (State(), n) == Descend(old(State()), t, i)
    {
      hide AllocTable, RangesOk, Store, Entry, State, Valid;
      var e := ReadEntry(t, i);
      if !Present(e) {
        n := AllocPageTable();
        WriteEntry(t, i, n * PAGE_SIZE + LINK_FLAGS);
      } else {
        n := Frame(e);
      }
    }

    /** pager_map. */
    method Map(virt: nat, phys: nat, flags: nat) returns (mapped: bool)
      requires Valid()
      modifies this, bitmap`lastAllocPage, bitmap`used, bitmap.words
      modifies regions`headerIndex, regions`head, regions.nodes
      ensures Valid() && State() == MapPage(old(State()), virt, phys, flags)
      ensures mapped <==> phys < Pow2(cpuPhysBits)
    {
      hide Descend, RangesOk, Pow2, VPageOf, Store, HugeEntry, SmallEntry, Huge;
      hide State, Valid;
      if phys >= Pow2(cpuPhysBits) {
        return false;
      }
      var v := VPageOf(virt);
      var pdpt := NextTable(firmwarePml4, v.i4);
      var pd := NextTable(pdpt, v.i3);
      if Huge(flags) {
        WriteEntry(pd, v.i2, HugeEntry(phys, flags));
      } else {
        var pt := NextTable(pd, v.i2);
        WriteEntry(pt, v.i1, SmallEntry(phys, flags));
      }
      return true;
    }

    /** pager_map_range. */
    method MapRange(virt: nat, phys: nat, size: nat, flags: nat)
      requires Valid() && size + SLOT_SIZE <= TWO64
      modifies this, bitmap`lastAllocPage, bitmap`used, bitmap.words
      modifies regions`headerIndex, regions`head, regions.nodes
      ensures Valid() && State() == Spec.MapRange(old(State()), virt, phys, size, flags, 0)
    {
      hide MapPage, State, Valid, RangesOk, Huge;
      var offset := 0;
      while offset < size
        invariant Valid()
        invariant Spec.MapRange(State(), virt, phys, size, flags, offset)
               == Spec.MapRange(old(State()), virt, phys, size, flags, 0)
        decreases size - offset
      {
        var remaining := size - offset;
        var curVirt, curPhys := (virt + offset) % TWO64, (phys + offset) % TWO64;
        if remaining >= SLOT_SIZE && curVirt % SLOT_SIZE == 0 && curPhys % SLOT_SIZE == 0 {
          var _ := Map(curVirt, curPhys, OrHuge(flags));
          offset := offset + SLOT_SIZE;
        } else {
          var _ := Map(curVirt, curPhys, flags);
          offset := offset + PAGE_SIZE;
        }
      }
    }

    /** pager_unmap. */
    method Unmap(virt: nat)
      requires Valid()
      modifies `memory
      ensures Valid() && State() == Spec.Unmap(old(State()), virt)
    {
      hide State, Valid, Store, Entry, VPageOf, Present, Huge, Frame, ClearPresent;
      if mappedPml4 == None {
        return;
      }
      var v := VPageOf(virt);
      var e4 := ReadEntry(mappedPml4.value, v.i4);
      if !Present(e4) {
        return;
      }
      var e3 := ReadEntry(Frame(e4), v.i3);
      if !Present(e3) {
        return;
      }
      var pd := Frame(e3);
      var e2 := ReadEntry(pd, v.i2);
      if Huge(e2) {
        WriteEntry(pd, v.i2, ClearPresent(e2));
        return;
      }
      if !Present(e2) {
        return;
      }
      var pt := Frame(e2);
      var e1 := ReadEntry(pt, v.i1);
      WriteEntry(pt, v.i1, ClearPresent(e1));
    }

    /** avmf_alloc. */
    method Alloc(size: nat, kind: AllocType, flags: nat) returns (virt: nat, physOut: nat)
      requires Valid()
      modifies this, bitmap`lastAllocPage, bitmap`used, bitmap.words
      modifies regions`headerIndex, regions`head, regions.nodes
      ensures Valid() && (State(), virt) == Spec.Alloc(old(State()), size, kind, flags)
      ensures physOut == if virt == 0 then 0 else AllocPhys(old(State()).phys, Align4k(size)).1
    {
      hide Spec.MapRange, AllocPhys, RangesOk, AddRegion, Virtual.AllocVirt, State, Valid, Align4k;
      physOut := 0;
      virt := AllocVirt(size, kind);
      if virt == 0 {
        return;
      }
      var trueSize := Align4k(size);
      StateRanges();
      ghost var before := State().phys;
      var phys := TakePages(trueSize);
      if phys == 0 {
        return 0, 0;
      }
      TakenSize(before, size);
      var recorded := Record(virt, phys, trueSize, flags);
      if !recorded {
        return 0, 0;
      }
      MapRange(virt, phys, trueSize, flags);
      physOut := phys;
    }

    method TakePages(size: nat) returns (phys: nat)
      requires Valid()
      modifies bitmap`lastAllocPage, bitmap`used, bitmap.words
      ensures Valid() && var (ph, p) := AllocPhys(old(State()).phys, size);
                         State() == old(State()).(phys := ph) && phys == p
    {
      hide AllocPhys, PhysBitmap.Ranges;
      phys := bitmap.AllocContiguous(size);
    }

    /** avmf_alloc_region for a client's region. */
    method Record(virt: nat, phys: nat, size: nat, flags: nat) returns (ok: bool)
      requires Valid()
      modifies `runs, regions`headerIndex, regions`head, regions.nodes
      ensures Valid()
      ensures var s := old(State());
              var (table, recorded) := AddRegion(s.table, virt, phys, size, flags);
              var owner := if recorded then Client(|s.table.headers|) else Stranded;
              && ok == recorded
              && State() == s.(table := table, runs := s.runs + [Run(phys / PAGE_SIZE, size / PAGE_SIZE, owner)])
    {
      hide AddRegion, RangesOk;
      ghost var h := |State().table.headers|;
      ok := regions.AllocRegion(virt, phys, size, flags);
      runs := runs + [Run(phys / PAGE_SIZE, size / PAGE_SIZE, if ok then Client(h) else Stranded)];
    }

    /** Clearing the bits of a region. */
    method ReleaseRun(page: nat, n: nat, ghost h: nat)
      requires Valid() && page + n <= BITMAP_PAGES
      modifies `runs, bitmap`used, bitmap.words
      ensures Valid()
      ensures State() == var s := old(State());
                         s.(phys := s.phys.(used := s.phys.used - Physical.Pages(page, n)),
                            runs := DropClient(s.runs, h))
    {
      hide RangesOk, DropClient;
      bitmap.Release(page, n);
      runs := DropClient(runs, h);
    }

    /** avmf_free; the header found must lie in the bitmap. */
    method Free(virt: nat)
      requires Valid()
      requires var found := Virtual.Find(State().table, virt).1;
               found.Some? ==>
                 var hd := State().table.headers[found.value];
                 hd.phys / PAGE_SIZE + hd.size / PAGE_SIZE <= BITMAP_PAGES
      modifies `memory, `runs, bitmap`used, bitmap.words, regions`lastFound, regions`cached
      ensures Valid() && State() == Spec.Free(old(State()), virt)
    {
      hide Spec.Unmap, RangesOk, DropClient;
      ghost var s := State();
      var hdr, k := regions.Find(virt);
      assert State() == s.(table := Virtual.Find(s.table, virt).0);
      if hdr == null {
        return;
      }
      assert s.table.headers[k.value] == hdr.Value();
      ReleaseRun(hdr.phys / PAGE_SIZE, hdr.size / PAGE_SIZE, k.value);
      Unmap(virt);
    }

    /** avmf_virt_to_phys. */
    method VirtToPhys(virt: nat) returns (phys: nat)
      requires Valid()
      modifies regions`lastFound, regions`cached
      ensures Valid() && var (table, p) := Virtual.VirtToPhys(old(State()).table, virt);
                         State() == old(State()).(table := table) && phys == p
      ensures 0xFFFF_8000_0000_0000 <= virt < 0xFFFF_A000_0000_0000 ==> phys == virt - 0xFFFF_8000_0000_0000
    {
      phys := regions.VirtToPhys(virt);
    }

    /** The gap-filling loop of pager_init. */
    method MapDirect(entries: seq<E820Entry>) returns (last: nat)
      requires Valid()
      requires cpuPhysBits <= 52 && forall k :: 0 <= k < |entries| ==> entries[k].End() < TWO64
      modifies this, bitmap`lastAllocPage, bitmap`used, bitmap.words
      modifies regions`headerIndex, regions`head, regions.nodes
      ensures Valid() && (State(), last) == MapEntries(old(State()), entries, 0, 0)
    {
      hide Spec.MapRange, RangesOk, Pow2, State, Valid;
      last := 0;
      var i := 0;
      while i < |entries|
        invariant 0 <= i <= |entries| && Valid()
        invariant MapEntries(State(), entries, i, last) == MapEntries(old(State()), entries, 0, 0)
      {
        var e := entries[i];
        if e.len >= 1 {
          var start, len := e.base, e.len;
          if e.base > last {
            start, len := last, (e.base - last + e.len) % TWO64;
          }
          var end := (start + len) % TWO64;
          if end >= Pow2(cpuPhysBits) {
            return;
          }
          PhysFits(cpuPhysBits, end);
          MapRange((DIRECT_MAP_BASE + start) % TWO64, start, len, DIRECT_FLAGS);
          last := end;
        }
        i := i + 1;
      }
    }

    /** pager_init. */
    method Init(entries: seq<E820Entry>) returns (last: nat)
      requires Valid() && |entries| <= MAX_RANGES && RangesOk(RamRanges(entries))
      requires cpuPhysBits <= 52 && forall k :: 0 <= k < |entries| ==> entries[k].End() < TWO64
      requires bitmap.used == {} && forall i :: 0 <= i < MAX_RANGES ==> bitmap.base[i] == bitmap.limit[i] == 0
      requires State() == BeforeTables(memory, bitmap.Ranges(), cpuPhysBits)
      modifies this, bitmap`lastAllocPage, bitmap`used, bitmap.words, bitmap.base, bitmap.limit
      modifies regions`headerIndex, regions`head, regions.nodes
      ensures Valid() && (State(), last) == PagerInit(old(memory), cpuPhysBits, entries)
    {
      hide Spec.MapRange, AllocTable, MapEntries, RamRanges, RangesOk;
      bitmap.Init(RamRanges(entries));
      assert bitmap.Ranges() == RangeTable(entries);
      RangeTableOk(entries);
      assert State() == BeforeTables(memory, RangeTable(entries), cpuPhysBits);
      last := InitTables(entries);
    }

    /** What pager_init does after avmf_init. */
    method InitTables(entries: seq<E820Entry>) returns (last: nat)
      requires Valid() && |entries| <= MAX_RANGES
      requires cpuPhysBits <= 52 && forall k :: 0 <= k < |entries| ==> entries[k].End() < TWO64
      requires State() == BeforeTables(memory, RangeTable(entries), cpuPhysBits)
      modifies this, bitmap`lastAllocPage, bitmap`used, bitmap.words
      modifies regions`headerIndex, regions`head, regions.nodes
      ensures Valid() && (State(), last) == PagerInit(old(memory), cpuPhysBits, entries)
    {
      hide Spec.MapRange, AllocTable, MapEntries, RangesOk, RangeTable, BeforeTables;
      var root := AllocPageTable();
      SetRoot(root);
      hide State, Valid;
      last := MapDirect(entries);
      MapRange(FIRMWARE_BASE, FIRMWARE_BASE, 0x00FF_FFFF, LINK_FLAGS);
      MapRange(0, 0, 0x8_0000, LINK_FLAGS);
      MapRange(0x10_0000, 0x10_0000, 0x20_0000, LINK_FLAGS);
      Load(firmwarePml4);
    }

    method SetRoot(root: nat)
      requires Valid()
      modifies `firmwarePml4
      ensures Valid() && State() == old(State()).(root := root)
    {
      firmwarePml4 := root;
    }

    /** pager_load. */
    method Load(table: nat)
      requires Valid()
      modifies `mappedPml4
      ensures Valid() && State() == old(State()).(loaded := Some(table))
    {
      mappedPml4 := Some(table);
    }
  }
}
