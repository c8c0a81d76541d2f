/** avmf_alloc and avmf_free end to end: when exactly an allocation succeeds, what each outcome leaves, what the
    client gets, and what a free gives back. */
module AvmfExact {
  import opened Words
  import opened Physical
  import opened Regions
  import opened Paging
  import opened Addresses
  import opened MemoryState
  import opened Mapping
  import opened Unmapping
  import opened Bookkeeping
  import opened PageMaps
  import opened AvmfRuns
  import opened AvmfSafety
  import opened AvmfTheorems

  // ----- when avmf_alloc succeeds

  /** The heap's new top, a 64-bit sum, does not pass the base of what follows its space. */
  predicate SpaceLeft(h: Heaps, size: nat, kind: AllocType) {
    match kind
    case Unknown => false
    case User => (h.user + Align4k(size)) % TWO64 <= 0xFFFF_8000_0000_0000
    case Kernel => (h.kernel + Align4k(size)) % TWO64 <= 0xFFFF_C000_0000_0000
    case Driver => (h.driver + Align4k(size)) % TWO64 <= 0xFFFF_E000_0000_0000
    case Sensitive => true
  }

  /** At least one page is asked for, and some range has so many free pages in a row from its start point on. */
  ghost predicate RunLeft(ph: Phys, need: nat) {
    need >= 1 && exists k: nat, q: nat :: InOneRange(ph, k, q, need) && FreeRun(ph.used, q, need)
  }

  lemma FoundExactly(ph: Phys, size: nat)
    requires RangesOk(ph.ranges)
    ensures var n := Align4k(size);
            var (ph', phys) := AllocPhys(ph, n);
            && (phys != 0 <==> RunLeft(ph, n / PAGE_SIZE))
            && (phys == 0 ==> ph' == ph)
  {
    var n := Align4k(size);
    assert n + PAGE_SIZE <= TWO64 && Align4k(n) == n && n % PAGE_SIZE == 0;
    if n > 0 {
      AllocPhysFirstFit(ph, n);
      hide AllocPhys, Align4k, RangesOk, InOneRange, FreeRun;
      var need := n / PAGE_SIZE;
      if AllocPhys(ph, n).1 != 0 {
        var k: nat :| InOneRange(ph, k, AllocPhys(ph, n).1 / PAGE_SIZE, need);
        assert FreeRun(ph.used, AllocPhys(ph, n).1 / PAGE_SIZE, need);
      }
    }
  }

  lemma GrantedExactly(h: Heaps, size: nat, kind: AllocType)
    requires HeapsOk(h)
    ensures var (h', virt) := AllocVirt(h, size, kind);
            && (virt != 0 <==> SpaceLeft(h, size, kind))
            && (virt == 0 ==> h' == h)
            && (virt != 0 ==> virt == h.Top(kind))
  {
    AllocVirtExactly(h, size, kind);
    assert SpaceBase(kind) <= h.Top(kind);
    hide Align4k;
  }

  /** For every size and kind: avmf_alloc succeeds exactly if space, a run of pages and a header are left, and returns
      the heap's old top. Without space nothing changes. Without a run the heap has moved all the same. Without a
      header the heap has moved and the pages stay taken, held by nobody. */
  lemma AllocSucceedsExactly(s: Mem, size: nat, kind: AllocType, flags: nat)
    requires BooksOk(s)
    ensures var (s', virt) := Alloc(s, size, kind, flags);
            var (heaps, (ph, phys)) := (AllocVirt(s.heaps, size, kind).0, AllocPhys(s.phys, Align4k(size)));
            var space, run := SpaceLeft(s.heaps, size, kind), RunLeft(s.phys, Align4k(size) / PAGE_SIZE);
            && (virt != 0 <==> space && run && |s.table.headers| < 2048)
            && (virt != 0 ==> virt == s.heaps.Top(kind))
            && (!space ==> s' == s)
            && (space && !run ==> s' == s.(heaps := heaps))
            && (space && run && |s.table.headers| >= 2048 ==>
                  s' == s.(heaps := heaps, phys := ph,
                           runs := s.runs + [Run(phys / PAGE_SIZE, Align4k(size) / PAGE_SIZE, Stranded)]))
  {
    assert RangesOk(s.phys.ranges) && HeapsOk(s.heaps);
    hide MapRange, LedgerOk, HeadersOk, AllocPhys, AllocVirt, RangesOk, HeapsOk, RunLeft, SpaceLeft;
    FoundExactly(s.phys, size);
    GrantedExactly(s.heaps, size, kind);
    hide Align4k;
  }

  // ----- what the client gets

  /** A successful request clear of the system's maps, end to end. The header records it under the heap's old top,
      with its size rounded up and its flags. Its pages were free and are taken. At each address of the area the page
      walk and avmf_virt_to_phys give the memory at the same distance, with the attributes asked for. No page
      outside the area goes anywhere else than before. */
  lemma AllocExactly(s: Mem, size: nat, kind: AllocType, flags: nat)
    requires Inv(s) && AllocRequestOk(s, size, kind, flags)
    requires !Alloc(s, size, kind, flags).0.failed && Alloc(s, size, kind, flags).1 != 0
    ensures var (s', virt) := Alloc(s, size, kind, flags);
            var phys, n := AllocPhys(s.phys, Align4k(size)).1, Align4k(size);
            && virt == s.heaps.Top(kind) && |s'.table.headers| > |s.table.headers|
            && s'.table.headers[|s.table.headers|] == Header(virt, phys, n, flags)
            && (forall p: nat :: phys <= p * PAGE_SIZE < phys + n ==> p !in s.phys.used && p in s'.phys.used)
            && (forall a: nat :: virt <= a < virt + n ==>
                  && Translate(s'.pages, s'.root, a) == Some(phys + (a - virt))
                  && VirtToPhys(s'.table, a).1 == phys + (a - virt)
                  && AsAsked(Walk(s'.pages, s'.root, VPageOf(a)).value.attrs, flags))
            && (forall w :: !InArea(Header(virt, phys, n, flags), w) ==>
                  Walk(s'.pages, s'.root, w) == Walk(s.pages, s.root, w))
  {
    hide Inv, Alloc, ClearOfSystem, NewHeader, MapsHeader, Fits, Live, Walk, TreeWalk, Translate, VirtToPhys, AsAsked;
    hide InArea, VPageOf, AllocPhys, Align4k, Sound;
    var s' := Alloc(s, size, kind, flags).0;
    var h, hd := |s.table.headers|, NewHeader(s, size, kind, flags);
    AllocParts(s, size, kind, flags);
    InvParts(s);
    InvParts(s');
    forall a: nat | hd.virt <= a < hd.virt + hd.size
      ensures Translate(s'.pages, s'.root, a) == Some(hd.phys + (a - hd.virt))
      ensures VirtToPhys(s'.table, a).1 == hd.phys + (a - hd.virt)
      ensures var leaf := Walk(s'.pages, s'.root, VPageOf(a)); leaf.Some? && AsAsked(leaf.value.attrs, flags)
    {
      RecordsMatchTables(s', h, a);
      AttributesAt(s', h, a);
    }
    WalksFollowTrees(s);
    WalksFollowTrees(s');
    OthersStay(s, s', hd);
  }

  lemma AllocParts(s: Mem, size: nat, kind: AllocType, flags: nat)
    requires Inv(s) && AllocRequestOk(s, size, kind, flags)
    requires !Alloc(s, size, kind, flags).0.failed && Alloc(s, size, kind, flags).1 != 0
    ensures var (s', virt) := Alloc(s, size, kind, flags);
            var h, hd := |s.table.headers|, NewHeader(s, size, kind, flags);
            && hd == Header(virt, AllocPhys(s.phys, Align4k(size)).1, Align4k(size), flags)
            && virt == s.heaps.Top(kind) && Inv(s') && !Huge(flags)
            && h < |s'.table.headers| && s'.table.headers[h] == hd && Live(s', h) && MapsHeader(s, s', hd)
            && (forall p: nat :: hd.phys <= p * PAGE_SIZE < hd.phys + hd.size ==>
                                   p !in s.phys.used && p in s'.phys.used)
  {
    hide Inv, Alloc, Recorded, ClearOfSystem, NewHeader, AfterRecord, MapsHeader, Extends, Sound, AllocSafe;
    hide Fits, SystemStays, Live, AllocPhys, Align4k, BooksOk;
    var s' := Alloc(s, size, kind, flags).0;
    var hd, s2 := NewHeader(s, size, kind, flags), AfterRecord(s, size, kind, flags);
    InvParts(s);
    AllocKeepsInv(s, size, kind, flags);
    InvParts(s');
    ClearRequestIsSafe(s, size, kind, flags);
    AllocEffect(s, size, kind, flags);
    AllocOutcome(s, size, kind, flags);
    NewHeaderIs(s, size, kind, flags);
    RunsExtended(s2, s');
    NewPagesTaken(s, s2, s', hd);
  }

  lemma RunsExtended(s: Mem, s': Mem)
    requires Extends(s, s')
    ensures s.runs <= s'.runs
  {
  }

  lemma NewHeaderIs(s: Mem, size: nat, kind: AllocType, flags: nat)
    ensures NewHeader(s, size, kind, flags)
            == Header(AllocVirt(s.heaps, size, kind).1, AllocPhys(s.phys, Align4k(size)).1, Align4k(size), flags)
  {
  }

  lemma OthersStay(s: Mem, s': Mem, hd: Header)
    requires MapsHeader(s, s', hd)
    ensures forall w :: !InArea(hd, w) ==> TreeWalk(s'.pages, s'.root, w) == TreeWalk(s.pages, s.root, w)
  {
    hide TreeWalk, HugeSlot, InArea;
  }

  /** The attributes at an address of a live region. */
  lemma AttributesAt(s: Mem, h: nat, a: nat)
    requires Inv(s) && Live(s, h) && h < |s.table.headers| && !Huge(s.table.headers[h].flags)
    requires s.table.headers[h].virt <= a < s.table.headers[h].virt + s.table.headers[h].size
    ensures var leaf := Walk(s.pages, s.root, VPageOf(a));
            leaf.Some? && AsAsked(leaf.value.attrs, s.table.headers[h].flags)
  {
    var hd := s.table.headers[h];
    LiveRegion(s, h);
    OffsetOfAddress(hd.virt, a) by {
      InvParts(s);
      HeaderBounds(s.heaps, s.table.headers, h);
      assert hd.virt % PAGE_SIZE == 0;
    }
    RegionWalk(s, hd, VPageOf(a));
    AttrsExact(hd.flags);
    hide Inv, Live, Walk, VPageOf, Offset, AsAsked;
  }

  /** The pages of a new region were free, and are taken. */
  lemma NewPagesTaken(s: Mem, s2: Mem, s': Mem, hd: Header)
    requires BooksOk(s) && BooksOk(s') && Recorded(s, s2, hd) && s2.runs <= s'.runs
    ensures forall p: nat :: hd.phys <= p * PAGE_SIZE < hd.phys + hd.size ==> p !in s.phys.used && p in s'.phys.used
  {
    hide HeadersOk;
    var k := |s.runs|;
    var run := Run(hd.phys / PAGE_SIZE, RegionPages(hd), Client(|s.table.headers|));
    assert s2.runs[k] == run && s'.runs[k] == run;
    forall i | 0 <= i < k
      ensures s.runs[i].Apart(run)
    {
      assert s2.runs[i] == s.runs[i] && s2.runs[i].Apart(s2.runs[k]);
    }
    forall p: nat | hd.phys <= p * PAGE_SIZE < hd.phys + hd.size
      ensures p !in s.phys.used && p in s'.phys.used
    {
      assert s'.runs[k].Has(p);
    }
  }

  // ----- what a free gives back

  /** A free of an address of a live region clears the bits of the region's pages and no other bit, and forgets one
      run. Heaps, headers, ranges and the search hint stay; table memory loses at most one present bit. */
  lemma FreeExactly(s: Mem, virt: nat, h: nat)
    requires RecordsOk(s) && h < |s.table.headers| && Live(s, h) && s.table.headers[h].Covers(virt)
    ensures var s', hd := Free(s, virt), s.table.headers[h];
            && s' == s.(phys := s.phys.(used := s'.phys.used), table := s.table.(cached := Some(h)),
                        pages := s'.pages, runs := s'.runs)
            && (forall p: nat :: p in s'.phys.used
                                 <==> p in s.phys.used && !(hd.phys <= p * PAGE_SIZE < hd.phys + hd.size))
            && |s'.runs| == |s.runs| - 1
            && (forall p: nat, i: Index, k: nat :: k >= 1 ==>
                  (Bit(Entry(s'.pages, p, i), k) <==> Bit(Entry(s.pages, p, i), k)))
            && (forall p: nat, i: Index :: Present(Entry(s'.pages, p, i)) ==> Present(Entry(s.pages, p, i)))
            && (forall p: nat, i: Index, q: nat, j: Index ::
                  Entry(s'.pages, p, i) != Entry(s.pages, p, i) && Entry(s'.pages, q, j) != Entry(s.pages, q, j) ==>
                    p == q && i == j)
  {
    hide Bit, Entry, Present, LedgerOk, HeadersOk, Unmap, Free, Live, VirtToPhys;
    var hd := s.table.headers[h];
    HeaderBounds(s.heaps, s.table.headers, h);
    CachedFindIsScan(s.heaps, s.table, virt);
    HeaderTranslates(s.heaps, s.table, h, virt);
    var s1 := FreeReleases(s, virt, h);
    UnmapLeavesRecords(s1, virt);
    UnmapClearsOneBit(s1, virt);
    FreedHeader(s, virt, h);
    var k :| 0 <= k < |s.runs| && s.runs[k].owner == Client(h)
             && s1 == s.(table := s1.table, runs := s.runs[..k] + s.runs[k + 1..],
                         phys := s.phys.(used := s.phys.used - Physical.Pages(s.runs[k].start, s.runs[k].len)))
             && s1.table.headers == s.table.headers && CacheOk(s1.table);
    assert RunOfHeader(s.runs[k], hd);
  }

  lemma FreedHeader(s: Mem, virt: nat, h: nat)
    requires Find(s.table, virt).1 == Some(h) && h < |s.table.headers|
    ensures Free(s, virt).table == s.table.(cached := Some(h))
  {
    hide Find, DropClient, Entry, Store, VPageOf;
  }
}
