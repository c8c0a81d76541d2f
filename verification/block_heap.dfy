/** fmalloc, flink and ffree of core.c: blocks with a signed header, chained by hand, freed together. */
module BlockHeap {
  import opened Words
  import opened Physical
  import opened Regions
  import opened Paging
  import opened MemoryState
  import opened Mapping
  import opened Bookkeeping
  import opened AvmfRuns
  import opened AvmfSafety
  import opened AvmfExact
  import opened Manager

  /** sizeof(struct alloc_hdr), packed: ten signature bytes and three words. */
  const HEADER_SIZE: nat := 34
  const SIGNATURE: seq<nat> := [80, 70, 73, 95, 65, 76, 76, 79, 67, 0]   // "PFI_ALLOC\0"

  datatype AllocHeader = AllocHeader(sig: seq<nat>, size: nat, nxt: nat, prev: nat)

  /** The headers in memory, by virtual address. */
  type Blocks = map<nat, AllocHeader>

  predicate Signed(b: Blocks, p: nat) { p in b && b[p].sig == SIGNATURE }

  /** xs are the blocks ffree frees from p on: the longest prefix of the nxt chain whose members carry
      the signature. The chain ends at NULL or at a header without it. */
  predicate IsChain(b: Blocks, p: nat, xs: seq<nat>)
    decreases |xs|
  {
    if xs == [] then p == 0 || (p in b && !Signed(b, p))
    else p != 0 && Signed(b, p) && xs[0] == p && IsChain(b, b[p].nxt, xs[1..])
  }

  lemma {:induction false} ChainIsUnique(b: Blocks, p: nat, xs: seq<nat>, ys: seq<nat>)
    requires IsChain(b, p, xs) && IsChain(b, p, ys)
    ensures xs == ys
    decreases |xs|
  {
    if xs != [] && ys != [] {
      ChainIsUnique(b, b[p].nxt, xs[1..], ys[1..]);
      assert xs == [xs[0]] + xs[1..] && ys == [ys[0]] + ys[1..];
    }
  }

  /** Without recursion: each member carries the signature, each links to the next, and the last links to NULL or to
      a header without the signature. */
  lemma {:induction false} ChainExactly(b: Blocks, p: nat, xs: seq<nat>)
    ensures IsChain(b, p, xs)
            <==> && (forall i :: 0 <= i < |xs| ==> xs[i] != 0 && xs[i] in b && b[xs[i]].sig == SIGNATURE)
                 && (forall i :: 0 <= i < |xs| - 1 ==> b[xs[i]].nxt == xs[i + 1])
                 && (xs != [] ==> xs[0] == p)
                 && var end := if xs == [] then p else b[xs[|xs| - 1]].nxt;
                    end == 0 || (end in b && b[end].sig != SIGNATURE)
    decreases |xs|
  {
    if xs != [] && p in b {
      var rest := xs[1..];
      ChainExactly(b, b[p].nxt, rest);
      assert forall i :: 0 <= i < |rest| ==> rest[i] == xs[i + 1];
      assert forall i :: 0 < i < |xs| ==> xs[i] == rest[i - 1];
    }
  }

  lemma {:induction false} ChainSuffix(b: Blocks, p: nat, xs: seq<nat>, i: nat)
    requires IsChain(b, p, xs) && i < |xs|
    ensures IsChain(b, xs[i], xs[i..])
    decreases i
  {
    if i > 0 {
      ChainSuffix(b, b[p].nxt, xs[1..], i - 1);
      assert xs[1..][i - 1..] == xs[i..];
    }
  }

  /** A chain that ends meets no block twice: ffree frees each of its blocks once. */
  lemma ChainMeetsOnce(b: Blocks, p: nat, xs: seq<nat>)
    requires IsChain(b, p, xs)
    ensures forall i, j :: 0 <= i < j < |xs| ==> xs[i] != xs[j]
  {
    forall i, j | 0 <= i < j < |xs|
      ensures xs[i] != xs[j]
    {
      ChainSuffix(b, p, xs, i);
      ChainSuffix(b, p, xs, j);
      if xs[i] == xs[j] {
        ChainIsUnique(b, xs[i], xs[i..], xs[j..]);
      }
    }
  }

  /** flink on two blocks, given by the addresses of their headers. */
  function Link(b: Blocks, p: nat, q: nat): Blocks
    requires p in b && q in b
  {
    var b1 := b[p := b[p].(nxt := q)];
    b1[q := b1[q].(prev := p)]
  }

  /** flink along a sequence: first to second, second to third, and so on. */
  function LinkAll(b: Blocks, ps: seq<nat>): (r: Blocks)
    requires forall i :: 0 <= i < |ps| ==> ps[i] in b
    ensures r.Keys == b.Keys
    decreases |ps|
  {
    if |ps| < 2 then b else LinkAll(Link(b, ps[0], ps[1]), ps[1..])
  }

  /** Linking leaves signatures, sizes and the links of other blocks. */
  lemma {:induction false} LinkAllFrame(b: Blocks, ps: seq<nat>, a: nat)
    requires (forall i :: 0 <= i < |ps| ==> ps[i] in b) && a in b
    ensures var r := LinkAll(b, ps);
            && r[a].sig == b[a].sig && r[a].size == b[a].size
            && (a !in ps[..if |ps| == 0 then 0 else |ps| - 1] ==> r[a].nxt == b[a].nxt)
    decreases |ps|
  {
    if |ps| >= 2 {
      LinkAllFrame(Link(b, ps[0], ps[1]), ps[1..], a);
      if a !in ps[..|ps| - 1] {
        var butLast := ps[..|ps| - 1];
        assert butLast == [ps[0]] + ps[1..][..|ps| - 2];
      }
    }
  }

  /** Fresh blocks flinked one after the other form exactly the chain that ffree of the first frees. */
  lemma {:induction false} LinkedIsChain(b: Blocks, ps: seq<nat>)
    requires ps != [] && forall i :: 0 <= i < |ps| ==> ps[i] != 0 && ps[i] in b && Signed(b, ps[i])
    requires forall i, j :: 0 <= i < j < |ps| ==> ps[i] != ps[j]
    requires b[ps[|ps| - 1]].nxt == 0
    ensures IsChain(LinkAll(b, ps), ps[0], ps)
    decreases |ps|
  {
    if |ps| >= 2 {
      var b1 := Link(b, ps[0], ps[1]);
      LinkedIsChain(b1, ps[1..]);
      LinkAllFrame(b1, ps[1..], ps[0]);
      assert ps[0] !in ps[1..];
      assert LinkAll(b, ps) == LinkAll(b1, ps[1..]);
    } else {
      assert ps[1..] == [];
    }
  }

  /** Blocks that are not linked are left as they are. */
  lemma {:induction false} LinkAllStays(b: Blocks, ps: seq<nat>, a: nat)
    requires (forall i :: 0 <= i < |ps| ==> ps[i] in b) && a in b && (|ps| < 2 || a !in ps)
    ensures LinkAll(b, ps)[a] == b[a]
    decreases |ps|
  {
    if |ps| >= 2 {
      assert ps[0] in ps && ps[1] in ps;
      LinkAllStays(Link(b, ps[0], ps[1]), ps[1..], a);
    }
  }

  /** ... and the first of those linked keeps its previous link. */
  lemma {:induction false} FirstKeepsPrev(b: Blocks, ps: seq<nat>)
    requires ps != [] && (forall i :: 0 <= i < |ps| ==> ps[i] in b)
    requires forall i, j :: 0 <= i < j < |ps| ==> ps[i] != ps[j]
    ensures LinkAll(b, ps)[ps[0]].prev == b[ps[0]].prev
  {
    if |ps| >= 2 {
      LinkAllStays(Link(b, ps[0], ps[1]), ps[1..], ps[0]);
    }
  }

  /** Blocks linked one after the other are linked both ways: each one's next is the one after it, each one's
      previous the one before it; the last keeps its next and the first its previous link. */
  lemma {:induction false} LinkedBothWays(b: Blocks, ps: seq<nat>)
    requires ps != [] && (forall i :: 0 <= i < |ps| ==> ps[i] in b)
    requires forall i, j :: 0 <= i < j < |ps| ==> ps[i] != ps[j]
    ensures var r := LinkAll(b, ps);
            && (forall i :: 0 <= i < |ps| - 1 ==> r[ps[i]].nxt == ps[i + 1] && r[ps[i + 1]].prev == ps[i])
            && r[ps[0]].prev == b[ps[0]].prev && r[ps[|ps| - 1]].nxt == b[ps[|ps| - 1]].nxt
    decreases |ps|
  {
    FirstKeepsPrev(b, ps);
    if |ps| >= 2 {
      var b1, rest := Link(b, ps[0], ps[1]), ps[1..];
      LinkedBothWays(b1, rest);
      FirstKeepsPrev(b1, rest);
      LinkAllStays(b1, rest, ps[0]);
      forall i | 0 <= i < |ps| - 1
        ensures var r := LinkAll(b, ps); r[ps[i]].nxt == ps[i + 1] && r[ps[i + 1]].prev == ps[i]
      {
        if i > 0 {
          assert rest[i - 1] == ps[i] && rest[i] == ps[i + 1];
        }
      }
    }
  }

  // ----- the room of a block

  /** What fmalloc asks avmf_alloc for: a 64-bit sum. */
  function Asked(size: nat): nat { (size + HEADER_SIZE) % TWO64 }

  /** A request that succeeds did not wrap the heap: no run of pages is that long. */
  lemma SuccessFits(s: Mem, size: nat)
    requires BooksOk(s) && size < TWO64 && Alloc(s, size, User, LINK_FLAGS).1 != 0
    ensures Fits(s.heaps, size, User) && size <= Align4k(size)
  {
    assert RangesOk(s.phys.ranges) && SpaceBase(User) <= s.heaps.Top(User) <= SpaceEnd(User);
    hide MapRange, LedgerOk, HeadersOk, RangesOk, HeapsOk;
    AllocSucceedsExactly(s, size, User, LINK_FLAGS);
    FoundExactly(s.phys, size);
    AlignedFits(size);
    if Align4k(size) > 0 {
      AllocPhysFirstFit(s.phys, Align4k(size));
    }
    hide AllocPhys, SpaceLeft, RunLeft, Alloc;
  }

  /** fmalloc adds the 34 bytes of its header to the size, modulo 2^64. The block it returns, past the header, has
      room for the size asked for exactly if that sum does not wrap. */
  lemma BlockRoomExactly(s: Mem, size: nat)
    requires BooksOk(s) && size < TWO64
    requires !Alloc(s, Asked(size), User, LINK_FLAGS).0.failed && Alloc(s, Asked(size), User, LINK_FLAGS).1 != 0
    ensures var (s', virt) := Alloc(s, Asked(size), User, LINK_FLAGS);
            && |s.table.headers| < |s'.table.headers|
            && var hd := s'.table.headers[|s.table.headers|];
               && hd.virt == virt && virt + 34 <= hd.virt + hd.size
               && (virt + 34 + size <= hd.virt + hd.size <==> size + 34 < TWO64)
  {
    hide Alloc, BooksOk, NewHeader, AfterRecord, Recorded, MapRange, Extends;
    var n := Asked(size);
    SuccessFits(s, n);
    AllocOutcome(s, n, User, LINK_FLAGS);
    var s', hd, s2 := Alloc(s, n, User, LINK_FLAGS).0, NewHeader(s, n, User, LINK_FLAGS),
                      AfterRecord(s, n, User, LINK_FLAGS);
    RecordedFirst(s, s2, s', hd, LINK_FLAGS);
    HeaderSize(s, n, User, LINK_FLAGS);
  }

  lemma RecordedFirst(s: Mem, s2: Mem, s': Mem, hd: Header, flags: nat)
    requires Recorded(s, s2, hd) && s' == MapRange(s2, hd.virt, hd.phys, hd.size, flags, 0) && !s'.failed
    ensures |s.table.headers| < |s'.table.headers| && s'.table.headers[|s.table.headers|] == hd
  {
    hide MapRange, LedgerOk, HeadersOk;
    MapRangeBooks(s2, hd.virt, hd.phys, hd.size, flags, 0);
    assert s2.table.headers[|s.table.headers|] == hd;
  }

  /** The signature is the ten bytes of its text. */
  lemma SignatureText()
    ensures |SIGNATURE| == 10 && SIGNATURE[9] == 0 && forall i :: 0 <= i < 9 ==> SIGNATURE[i] as char == "PFI_ALLOC"[i]
  {
  }

  // ----- what the frees do to the memory manager

  function FreeAll(s: Mem, xs: seq<nat>): Mem
    decreases |xs|
  {
    if xs == [] then s else FreeAll(Free(s, xs[0]), xs[1..])
  }

  /** The address is the start of live region h. */
  ghost predicate RegionStart(s: Mem, h: nat, a: nat) {
    h < |s.table.headers| && Live(s, h) && s.table.headers[h].virt == a
  }

  ghost predicate IsStart(s: Mem, a: nat) {
    exists h: nat :: RegionStart(s, h, a)
  }

  ghost predicate AllStart(s: Mem, xs: seq<nat>) {
    forall i :: 0 <= i < |xs| ==> IsStart(s, xs[i])
  }

  lemma StartIsCovered(s: Mem, h: nat, a: nat)
    requires Inv(s) && RegionStart(s, h, a)
    ensures s.table.headers[h].Covers(a) && FreeRequestOk(s, a)
    ensures forall g :: 0 <= g < |s.table.headers| && s.table.headers[g].Covers(a) ==> g == h
  {
    HeaderBounds(s.heaps, s.table.headers, h);
    forall g | 0 <= g < |s.table.headers| && s.table.headers[g].Covers(a)
      ensures g == h
    {
      CoveredOnce(s.heaps, s.table.headers, g, h, a);
    }
  }

  /** One free ends one live region and no other. */
  lemma FreeOne(s: Mem, h: nat, a: nat)
    requires Inv(s) && RegionStart(s, h, a)
    ensures var s' := Free(s, a);
            && Inv(s') && s'.table.headers == s.table.headers && !Live(s', h)
            && forall g: nat :: g != h && g < |s.table.headers| ==> (Live(s', g) <==> Live(s, g))
  {
    StartIsCovered(s, h, a);
    FreeKeepsInv(s, a);
    hide Inv, Live, Free;
  }

  /** The other blocks are still starts of live regions. */
  lemma RestStarts(s: Mem, h: nat, xs: seq<nat>)
    requires Inv(s) && xs != [] && RegionStart(s, h, xs[0]) && AllStart(s, xs)
    requires forall i, j :: 0 <= i < j < |xs| ==> xs[i] != xs[j]
    ensures AllStart(Free(s, xs[0]), xs[1..])
  {
    hide Inv, Live, Free;
    FreeOne(s, h, xs[0]);
    var s1, rest := Free(s, xs[0]), xs[1..];
    forall i | 0 <= i < |rest|
      ensures IsStart(s1, rest[i])
    {
      assert rest[i] == xs[i + 1] != xs[0] && IsStart(s, xs[i + 1]);
      var g: nat :| RegionStart(s, g, xs[i + 1]);
      assert RegionStart(s1, g, rest[i]);
    }
  }

  /** Freeing a chain ends exactly the regions of its blocks, each once, and keeps the memory
      manager's invariant. */
  lemma {:induction false} FreeAllExact(s: Mem, xs: seq<nat>)
    requires Inv(s) && AllStart(s, xs)
    requires forall i, j :: 0 <= i < j < |xs| ==> xs[i] != xs[j]
    ensures var s' := FreeAll(s, xs);
            && Inv(s') && s'.table.headers == s.table.headers
            && forall h: nat :: h < |s.table.headers| ==>
                                  (Live(s', h) <==> Live(s, h) && s.table.headers[h].virt !in xs)
    decreases |xs|
  {
    hide Inv, Live, Free;
    if xs != [] {
      assert IsStart(s, xs[0]);
      var h: nat :| RegionStart(s, h, xs[0]);
      FreeOne(s, h, xs[0]);
      RestStarts(s, h, xs);
      FreeAllExact(Free(s, xs[0]), xs[1..]);
      forall g: nat | g < |s.table.headers| && g != h && Live(s, g)
        ensures s.table.headers[g].virt != xs[0]
      {
        if s.table.headers[g].virt == xs[0] {
          StartIsCovered(s, h, xs[0]);
          StartIsCovered(s, g, xs[0]);
        }
      }
      assert forall a :: a in xs <==> a == xs[0] || a in xs[1..];
    }
  }

  /** What avmf_free finds for the start of a live region. */
  lemma FoundRegion(s: Mem, h: nat, a: nat)
    requires Inv(s) && RegionStart(s, h, a)
    ensures Find(s.table, a).1 == Some(h)
    ensures var hd := s.table.headers[h]; hd.phys / PAGE_SIZE + hd.size / PAGE_SIZE <= BITMAP_PAGES
  {
    CachedFindIsScan(s.heaps, s.table, a);
    HeaderBounds(s.heaps, s.table.headers, h);
    HeaderTranslates(s.heaps, s.table, h, a);
    hide HeadersOk, TablesOk, HugeSlotsOk, RegionsOk, Find;
    var k :| 0 <= k < |s.runs| && s.runs[k].owner == Client(h);
    assert RunOfHeader(s.runs[k], s.table.headers[h]);
  }

  class Heap {
    const manager: MemoryManager
    var blocks: Blocks

    constructor (manager: MemoryManager)
      ensures this.manager == manager && blocks == map[]
    {
      this.manager := manager;
      blocks := map[];
    }

    /** fmalloc: the address after the header, or 0. */
    method FMalloc(size: nat) returns (ptr: nat)
      requires manager.Valid()
      modifies this, manager, manager.bitmap`lastAllocPage, manager.bitmap`used, manager.bitmap.words
      modifies manager.regions`headerIndex, manager.regions`head, manager.regions.nodes
      ensures manager.Valid()
      ensures var (s', virt) := Alloc(old(manager.State()), Asked(size), User, LINK_FLAGS);
              && manager.State() == s'
              && ptr == (if virt == 0 then 0 else virt + HEADER_SIZE)
              && blocks == (if virt == 0 then old(blocks)
                            else old(blocks)[virt := AllocHeader(SIGNATURE, size, 0, 0)])
    {
      hide Alloc;
      var out, _ := manager.Alloc(Asked(size), User, LINK_FLAGS);
      if out == 0 {
        return 0;
      }
      blocks := blocks[out := AllocHeader(SIGNATURE, size, 0, 0)];
      ptr := out + HEADER_SIZE;
    }

    /** flink. */
    method FLink(ptr1: nat, ptr2: nat)
      requires ptr1 >= HEADER_SIZE && ptr2 >= HEADER_SIZE
      requires ptr1 - HEADER_SIZE in blocks && ptr2 - HEADER_SIZE in blocks
      modifies `blocks
      ensures blocks == Link(old(blocks), ptr1 - HEADER_SIZE, ptr2 - HEADER_SIZE)
    {
      var hdr1, hdr2 := ptr1 - HEADER_SIZE, ptr2 - HEADER_SIZE;
      blocks := blocks[hdr1 := blocks[hdr1].(nxt := hdr2)];
      blocks := blocks[hdr2 := blocks[hdr2].(prev := hdr1)];
    }

    /** ffree of the first block of a chain that ends, whose blocks are live regions: the link is read,
        then the block freed. */
    method FFree(ptr: nat, ghost chain: seq<nat>)
      requires manager.Valid() && Inv(manager.State())
      requires ptr >= HEADER_SIZE && IsChain(blocks, ptr - HEADER_SIZE, chain) && AllStart(manager.State(), chain)
      modifies manager`memory, manager`runs, manager.bitmap`used, manager.bitmap.words
      modifies manager.regions`lastFound, manager.regions`cached
      ensures manager.Valid() && manager.State() == FreeAll(old(manager.State()), chain)
      ensures Inv(manager.State()) && blocks == old(blocks)
    {
      hide Inv, Free, AllStart;
      ghost var rest := chain;
      var hdr: nat := ptr - HEADER_SIZE;
      while hdr != 0
        invariant manager.Valid() && Inv(manager.State())
        invariant IsChain(blocks, hdr, rest) && AllStart(manager.State(), rest)
        invariant FreeAll(manager.State(), rest) == FreeAll(old(manager.State()), chain)
        decreases |rest|
      {
        if blocks[hdr].sig != SIGNATURE {
          break;
        }
        ChainMeetsOnce(blocks, hdr, rest);
        var freePtr := hdr;
        hdr := blocks[hdr].nxt;
        FreeFirst(freePtr, rest);
        rest := rest[1..];
      }
    }

    /** One round of ffree's loop; the link of the block was read before. */
    method FreeFirst(hdr: nat, ghost rest: seq<nat>)
      requires manager.Valid() && Inv(manager.State()) && rest != [] && rest[0] == hdr
      requires AllStart(manager.State(), rest) && forall i, j :: 0 <= i < j < |rest| ==> rest[i] != rest[j]
      modifies manager`memory, manager`runs, manager.bitmap`used, manager.bitmap.words
      modifies manager.regions`lastFound, manager.regions`cached
      ensures manager.Valid() && manager.State() == Free(old(manager.State()), hdr)
      ensures Inv(manager.State()) && AllStart(manager.State(), rest[1..])
    {
      hide Inv, Free, Live, Find;
      ghost var s := manager.State();
      assert IsStart(s, rest[0]);
      ghost var h: nat :| RegionStart(s, h, rest[0]);
      FoundRegion(s, h, hdr);
      FreeOne(s, h, hdr);
      RestStarts(s, h, rest);
      manager.Free(hdr);
    }
  }

  /** Blocks linked with flink and freed through the first: exactly their regions end. */
  lemma LinkedBlocksAreFreed(s: Mem, b: Blocks, ps: seq<nat>)
    requires Inv(s) && AllStart(s, ps) && ps != []
    requires forall i :: 0 <= i < |ps| ==> ps[i] != 0 && ps[i] in b && Signed(b, ps[i])
    requires forall i, j :: 0 <= i < j < |ps| ==> ps[i] != ps[j]
    requires b[ps[|ps| - 1]].nxt == 0
    ensures IsChain(LinkAll(b, ps), ps[0], ps)
    ensures forall xs :: IsChain(LinkAll(b, ps), ps[0], xs) ==> xs == ps
    ensures var s' := FreeAll(s, ps);
            && Inv(s')
            && forall h: nat :: h < |s.table.headers| ==>
                                  (Live(s', h) <==> Live(s, h) && s.table.headers[h].virt !in ps)
  {
    LinkedIsChain(b, ps);
    forall xs | IsChain(LinkAll(b, ps), ps[0], xs)
      ensures xs == ps
    {
      ChainIsUnique(LinkAll(b, ps), ps[0], xs, ps);
    }
    FreeAllExact(s, ps);
    hide Inv, Live, FreeAll;
  }
}
