/** Virtual space and region headers of avmf.c: four bump heaps, a linked header list, a cached lookup. */
module Regions {
  import opened Words

  const USER_SPACE_BASE: nat := 0x1000
  const DIRECT_MAP_BASE: nat := 0xFFFF_8000_0000_0000
  const KERNEL_SPACE_BASE: nat := 0xFFFF_A000_0000_0000
  const DRIVER_SPACE_BASE: nat := 0xFFFF_C000_0000_0000
  const SENSITIVE_SPACE_BASE: nat := 0xFFFF_E000_0000_0000
  const STATIC_HEADERS: nat := 2048

  // ----- virtual heaps

  datatype AllocType = Unknown | User | Kernel | Driver | Sensitive

  datatype Heaps = Heaps(user: nat, kernel: nat, driver: nat, sensitive: nat) {
    function Top(t: AllocType): nat {
      match t
      case Unknown => 0
      case User => user
      case Kernel => kernel
      case Driver => driver
      case Sensitive => sensitive
    }

    function With(t: AllocType, top: nat): Heaps {
      match t
      case Unknown => this
      case User => this.(user := top)
      case Kernel => this.(kernel := top)
      case Driver => this.(driver := top)
      case Sensitive => this.(sensitive := top)
    }
  }

  const INITIAL_HEAPS := Heaps(USER_SPACE_BASE, KERNEL_SPACE_BASE, DRIVER_SPACE_BASE, SENSITIVE_SPACE_BASE)

  function SpaceBase(t: AllocType): nat { INITIAL_HEAPS.Top(t) }

  function SpaceEnd(t: AllocType): nat {
    match t
    case Unknown => 0
    case User => DIRECT_MAP_BASE
    case Kernel => DRIVER_SPACE_BASE
    case Driver => SENSITIVE_SPACE_BASE
    case Sensitive => TWO64 - 1
  }

  /** avmf_alloc_virt: both sums are 64-bit sums. */
  function AllocVirt(h: Heaps, size: nat, t: AllocType): (r: (Heaps, nat)) {
    if t == Unknown then (h, 0)
    else
      var top := (h.Top(t) + Align4k(size)) % TWO64;
      if top > SpaceEnd(t) then (h, 0) else (h.With(t, top), h.Top(t))
  }

  ghost predicate HeapsOk(h: Heaps) {
    forall t: AllocType :: SpaceBase(t) <= h.Top(t) <= SpaceEnd(t) && h.Top(t) % PAGE_SIZE == 0
  }

  datatype Interval = Interval(start: nat, size: nat) {
    predicate Apart(other: Interval) {
      start + size <= other.start || other.start + other.size <= start
    }
  }

  /** The part of a space that a heap has handed out. */
  ghost predicate Behind(h: Heaps, i: Interval) {
    exists t: AllocType :: t != Unknown && SpaceBase(t) <= i.start && i.start + i.size <= h.Top(t)
  }

  /** A request that is positive and moves its heap without 64-bit wrap-around. */
  predicate Fits(h: Heaps, size: nat, t: AllocType) {
    0 < size && size + PAGE_SIZE <= TWO64 && h.Top(t) + Align4k(size) < TWO64
  }

  /** One virtual allocation lies in its own space, past everything handed out before. */
  lemma AllocVirtIsNew(h: Heaps, size: nat, t: AllocType)
    requires HeapsOk(h) && Fits(h, size, t)
    ensures var (h', virt) := AllocVirt(h, size, t);
            var mine := Interval(virt, Align4k(size));
            && HeapsOk(h')
            && (forall i: Interval :: Behind(h, i) ==> Behind(h', i))
            && (virt == 0 ==> h' == h)
            && (virt != 0 ==>
                  && t != Unknown && virt % PAGE_SIZE == 0
                  && SpaceBase(t) <= virt && virt + mine.size <= SpaceEnd(t)
                  && Behind(h', mine)
                  && forall i: Interval :: Behind(h, i) ==> mine.Apart(i))
  {
    var (h', virt) := AllocVirt(h, size, t);
    if virt != 0 {
      var n := Align4k(size);
      assert n > 0 && n % PAGE_SIZE == 0 && h' == h.With(t, h.Top(t) + n) && h.Top(t) + n <= SpaceEnd(t);
      hide Align4k, AllocVirt, HeapsOk, Behind;
      HeapMoves(h, n, t);
    }
  }

  /** A heap that moves by whole pages within its space passes an area that is behind no heap. */
  lemma HeapMoves(h: Heaps, n: nat, t: AllocType)
    requires HeapsOk(h) && t != Unknown && n > 0 && n % PAGE_SIZE == 0 && h.Top(t) + n <= SpaceEnd(t)
    ensures var h', mine := h.With(t, h.Top(t) + n), Interval(h.Top(t), n);
            && HeapsOk(h') && Behind(h', mine) && SpaceBase(t) <= h.Top(t) && h.Top(t) % PAGE_SIZE == 0
            && forall i: Interval :: Behind(h, i) ==> Behind(h', i) && mine.Apart(i)
  {
    var h' := h.With(t, h.Top(t) + n);
    assert SpaceBase(t) <= h.Top(t) && h.Top(t) % PAGE_SIZE == 0;
    forall i: Interval | Behind(h, i)
      ensures Behind(h', i) && Interval(h.Top(t), n).Apart(i)
    {
      var u: AllocType :| u != Unknown && SpaceBase(u) <= i.start && i.start + i.size <= h.Top(u);
      assert h.Top(u) <= h'.Top(u);
      assert SpaceBase(u) <= h.Top(u) <= SpaceEnd(u);
    }
    forall u: AllocType
      ensures SpaceBase(u) <= h'.Top(u) <= SpaceEnd(u) && h'.Top(u) % PAGE_SIZE == 0
    {
      assert SpaceBase(u) <= h.Top(u) <= SpaceEnd(u) && h.Top(u) % PAGE_SIZE == 0;
    }
  }

  /** A heap is granted a request exactly if its new top, a 64-bit sum, is at most the base of what follows its
      space. The result is then the old top, and that heap alone moves. */
  lemma AllocVirtExactly(h: Heaps, size: nat, t: AllocType)
    ensures var (h', virt) := AllocVirt(h, size, t);
            match t
            case Unknown => (h', virt) == (h, 0)
            case User =>
              var top := (h.user + Align4k(size)) % TWO64;
              (h', virt) == if top <= 0xFFFF_8000_0000_0000 then (h.(user := top), h.user) else (h, 0)
            case Kernel =>
              var top := (h.kernel + Align4k(size)) % TWO64;
              (h', virt) == if top <= 0xFFFF_C000_0000_0000 then (h.(kernel := top), h.kernel) else (h, 0)
            case Driver =>
              var top := (h.driver + Align4k(size)) % TWO64;
              (h', virt) == if top <= 0xFFFF_E000_0000_0000 then (h.(driver := top), h.driver) else (h, 0)
            case Sensitive =>
              var top := (h.sensitive + Align4k(size)) % TWO64;
              (h', virt) == (h.(sensitive := top), h.sensitive)
  {
  }

  /** So the first request of each kind is granted exactly if it is no longer than the kind's space. */
  lemma FirstRequestExactly(size: nat, t: AllocType)
    requires Fits(INITIAL_HEAPS, size, t)
    ensures AllocVirt(INITIAL_HEAPS, size, t).1
            == match t
               case Unknown => 0
               case User => if size <= 0xFFFF_7FFF_FFFF_F000 then 0x1000 else 0
               case Kernel => if size <= 0x2000_0000_0000 then 0xFFFF_A000_0000_0000 else 0
               case Driver => if size <= 0x2000_0000_0000 then 0xFFFF_C000_0000_0000 else 0
               case Sensitive => 0xFFFF_E000_0000_0000
  {
    AllocVirtExactly(INITIAL_HEAPS, size, t);
    AlignedBound(size);
  }

  /** Rounding up keeps a size within a whole number of pages. */
  lemma AlignedBound(size: nat)
    requires size + PAGE_SIZE <= TWO64
    ensures Align4k(size) <= 0xFFFF_7FFF_FFFF_F000 <==> size <= 0xFFFF_7FFF_FFFF_F000
    ensures Align4k(size) <= 0x2000_0000_0000 <==> size <= 0x2000_0000_0000
  {
  }

  datatype Request = Request(size: nat, kind: AllocType)

  /** The intervals a sequence of calls hands out, in order. */
  function Issue(h: Heaps, calls: seq<Request>): (r: (Heaps, seq<Interval>))
    decreases |calls|
  {
    if calls == [] then (h, [])
    else
      var c := calls[0];
      var (h1, virt) := AllocVirt(h, c.size, c.kind);
      var (h2, rest) := Issue(h1, calls[1..]);
      (h2, if virt == 0 then rest else [Interval(virt, Align4k(c.size))] + rest)
  }

  predicate AllFit(h: Heaps, calls: seq<Request>)
    decreases |calls|
  {
    calls == [] || (Fits(h, calls[0].size, calls[0].kind)
                    && AllFit(AllocVirt(h, calls[0].size, calls[0].kind).0, calls[1..]))
  }

  /** Whatever the order of calls and heap types, no two results overlap, none overlaps what was
      handed out before, and none meets the direct-map window. */
  lemma {:induction false} VirtualNeverOverlaps(h: Heaps, calls: seq<Request>)
    requires HeapsOk(h) && AllFit(h, calls)
    ensures var (h', given) := Issue(h, calls);
            && HeapsOk(h')
            && (forall i: Interval :: Behind(h, i) ==> Behind(h', i))
            && (forall a :: 0 <= a < |given| ==>
                              && Behind(h', given[a])
                              && given[a].Apart(Interval(DIRECT_MAP_BASE, KERNEL_SPACE_BASE - DIRECT_MAP_BASE))
                              && forall i: Interval :: Behind(h, i) ==> given[a].Apart(i))
            && (forall a, b :: 0 <= a < b < |given| ==> given[a].Apart(given[b]))
    decreases |calls|
  {
    if calls != [] {
      AllocVirtIsNew(h, calls[0].size, calls[0].kind);
      VirtualNeverOverlaps(AllocVirt(h, calls[0].size, calls[0].kind).0, calls[1..]);
    }
  }

  /** The guard of avmf_alloc_virt is a wrapping comparison. A non-empty request that it lets through
      stays inside its space exactly when the bump does not wrap. */
  lemma VirtGuardExact(h: Heaps, size: nat, t: AllocType)
    requires HeapsOk(h) && t != Unknown && 0 < Align4k(size) < TWO64
    requires (h.Top(t) + Align4k(size)) % TWO64 <= SpaceEnd(t)
    ensures var (h', virt) := AllocVirt(h, size, t);
            virt + Align4k(size) <= SpaceEnd(t) && h'.Top(t) == virt + Align4k(size)
            <==> h.Top(t) + Align4k(size) < TWO64
  {
    assert SpaceBase(t) <= h.Top(t) <= SpaceEnd(t);
  }

  /** A kernel request of 0x600000001000 bytes wraps the kernel heap onto the user heap: the next
      kernel allocation and the next user allocation are the same page. */
  lemma KernelHeapWraps()
    ensures var (h1, virt1) := AllocVirt(INITIAL_HEAPS, 0x6000_0000_1000, Kernel);
            var (h2, virt2) := AllocVirt(h1, 1, Kernel);
            var (h3, virt3) := AllocVirt(h2, 1, User);
            virt1 == KERNEL_SPACE_BASE && virt2 == virt3 == USER_SPACE_BASE
  {
    assert KERNEL_SPACE_BASE + 0x6000_0000_1000 == TWO64 + 0x1000;
    assert Align4k(0x6000_0000_1000) == 0x6000_0000_1000 && Align4k(1) == 0x1000;
  }

  // ----- headers

  datatype Header = Header(virt: nat, phys: nat, size: nat, flags: nat) {
    predicate Covers(a: nat) { virt <= a < (virt + size) % TWO64 }

    predicate CoversPhys(p: nat) { phys <= p < (phys + size) % TWO64 }

    function Area(): Interval { Interval(virt, size) }
  }

  /** static_headers[0..header_index) in list order, and the index last_found points to. */
  datatype Table = Table(headers: seq<Header>, cached: Option<nat>)

  function Scan(headers: seq<Header>, i: nat, a: nat): (r: Option<nat>)
    requires i <= |headers|
    ensures r.Some? ==> i <= r.value < |headers| && headers[r.value].Covers(a)
    ensures r.Some? ==> forall k :: i <= k < r.value ==> !headers[k].Covers(a)
    ensures r.None? ==> forall k :: i <= k < |headers| ==> !headers[k].Covers(a)
    decreases |headers| - i
  {
    if i == |headers| then None else if headers[i].Covers(a) then Some(i) else Scan(headers, i + 1, a)
  }

  function ScanPhys(headers: seq<Header>, i: nat, p: nat): (r: Option<nat>)
    requires i <= |headers|
    ensures r.Some? ==> i <= r.value < |headers| && headers[r.value].CoversPhys(p)
    ensures r.Some? ==> forall k :: i <= k < r.value ==> !headers[k].CoversPhys(p)
    ensures r.None? ==> forall k :: i <= k < |headers| ==> !headers[k].CoversPhys(p)
    decreases |headers| - i
  {
    if i == |headers| then None else if headers[i].CoversPhys(p) then Some(i) else ScanPhys(headers, i + 1, p)
  }

  predicate CacheOk(t: Table) {
    t.cached.Some? ==> t.cached.value < |t.headers|
  }

  /** avmf_find: the header last found is tried first; a hit of the scan is remembered. */
  function Find(t: Table, a: nat): (r: (Table, Option<nat>))
    ensures r.0.headers == t.headers && (CacheOk(t) ==> CacheOk(r.0))
    ensures r.1.Some? ==> r.1.value < |t.headers|
    ensures r.0.cached == if r.1.Some? then r.1 else t.cached
    ensures t.cached.Some? && CacheOk(t) && t.headers[t.cached.value].Covers(a) ==> r.1 == t.cached
  {
    if t.cached.Some? && CacheOk(t) && t.headers[t.cached.value].Covers(a) then (t, t.cached)
    else
      var found := Scan(t.headers, 0, a);
      (if found.Some? then t.(cached := found) else t, found)
  }

  /** avmf_alloc_region. */
  function AddRegion(t: Table, virt: nat, phys: nat, size: nat, flags: nat): (r: (Table, bool)) {
    if |t.headers| >= STATIC_HEADERS then (t, false)
    else (t.(headers := t.headers + [Header(virt, phys, Align4k(size), flags)]), true)
  }

  /** A record keeps addresses and flags and rounds the size up to pages; 2048 can be made. */
  lemma AddRegionExactly(t: Table, virt: nat, phys: nat, size: nat, flags: nat)
    requires size + 4096 <= TWO64
    ensures var (t', ok) := AddRegion(t, virt, phys, size, flags);
            && (ok <==> |t.headers| < 2048)
            && (!ok ==> t' == t)
            && (ok ==>
                  exists n: nat :: n % 4096 == 0 && size <= n < size + 4096
                                   && t' == t.(headers := t.headers + [Header(virt, phys, n, flags)]))
  {
    var n := Align4k(size);
    hide Align4k;
    assert AddRegion(t, virt, phys, size, flags).1 ==>
        n % 4096 == 0 && size <= n < size + 4096
        && AddRegion(t, virt, phys, size, flags).0 == t.(headers := t.headers + [Header(virt, phys, n, flags)]);
  }

  /** An area that reaches the end of the 64-bit space covers no address: its end wraps. */
  lemma AreaAtEndIsLost(hd: Header, a: nat)
    requires hd.virt < TWO64 && hd.size <= TWO64
    ensures hd.Covers(a) <==> hd.virt <= a < hd.virt + hd.size < TWO64
  {
  }

  function VirtToPhys(t: Table, virt: nat): (r: (Table, nat))
    ensures r.0.headers == t.headers && (CacheOk(t) ==> CacheOk(r.0))
  {
    if DIRECT_MAP_BASE <= virt < KERNEL_SPACE_BASE then (t, virt - DIRECT_MAP_BASE)
    else
      var (t', found) := Find(t, virt);
      match found
      case None => (t', 0)
      case Some(k) => (t', (t.headers[k].phys + (virt - t.headers[k].virt)) % TWO64)
  }

  /** avmf_phys_to_virt; 0 stands for NULL. */
  function PhysToVirt(headers: seq<Header>, p: nat): nat {
    match ScanPhys(headers, 0, p)
    case None => 0
    case Some(k) => (headers[k].virt + (p - headers[k].phys)) % TWO64
  }

  /** What every run keeps of the headers: disjoint areas behind the heaps. */
  ghost predicate HeadersOk(h: Heaps, headers: seq<Header>) {
    && HeapsOk(h)
    && (forall i :: 0 <= i < |headers| ==>
                      && headers[i].size > 0 && headers[i].size % PAGE_SIZE == 0 && headers[i].virt % PAGE_SIZE == 0
                      && headers[i].phys % PAGE_SIZE == 0 && headers[i].phys + headers[i].size < TWO64
                      && Behind(h, headers[i].Area()))
    && (forall i, j :: 0 <= i < j < |headers| ==> headers[i].Area().Apart(headers[j].Area()))
  }

  lemma HeaderBounds(h: Heaps, headers: seq<Header>, i: nat)
    requires HeadersOk(h, headers) && i < |headers|
    ensures var hd := headers[i];
            && USER_SPACE_BASE <= hd.virt && hd.virt + hd.size < TWO64
            && (hd.virt + hd.size <= DIRECT_MAP_BASE || KERNEL_SPACE_BASE <= hd.virt)
            && (forall a: nat :: hd.Covers(a) <==> hd.virt <= a < hd.virt + hd.size)
            && (forall p: nat :: hd.CoversPhys(p) <==> hd.phys <= p < hd.phys + hd.size)
  {
    var t: AllocType :| t != Unknown && SpaceBase(t) <= headers[i].virt
                        && headers[i].virt + headers[i].size <= h.Top(t);
    assert h.Top(t) <= SpaceEnd(t);
  }

  /** No address is covered by two headers. */
  lemma CoveredOnce(h: Heaps, headers: seq<Header>, i: nat, j: nat, a: nat)
    requires HeadersOk(h, headers) && i < |headers| && j < |headers|
    requires headers[i].Covers(a) && headers[j].Covers(a)
    ensures i == j
  {
    HeaderBounds(h, headers, i);
    HeaderBounds(h, headers, j);
  }

  /** The cache never changes the answer of a lookup. */
  lemma CachedFindIsScan(h: Heaps, t: Table, a: nat)
    requires HeadersOk(h, t.headers) && CacheOk(t)
    ensures Find(t, a).1 == Scan(t.headers, 0, a)
  {
    if t.cached.Some? && t.headers[t.cached.value].Covers(a) {
      CoveredOnce(h, t.headers, t.cached.value, Scan(t.headers, 0, a).value, a);
    }
  }

  /** The records translate an address of a header's area to its offset in the header's memory. */
  lemma HeaderTranslates(h: Heaps, t: Table, k: nat, a: nat)
    requires HeadersOk(h, t.headers) && CacheOk(t) && k < |t.headers|
    requires t.headers[k].virt <= a < t.headers[k].virt + t.headers[k].size
    ensures VirtToPhys(t, a).1 == t.headers[k].phys + (a - t.headers[k].virt)
    ensures Scan(t.headers, 0, a) == Some(k)
  {
    HeaderBounds(h, t.headers, k);
    CachedFindIsScan(h, t, a);
    CoveredOnce(h, t.headers, k, Scan(t.headers, 0, a).value, a);
  }

  /** Every answer of avmf_virt_to_phys: the distance from the direct map's base in its window; the recorded
      address plus the offset in a header's area, which the cache then remembers; else 0. */
  lemma LookupExactly(h: Heaps, t: Table, a: nat)
    requires HeadersOk(h, t.headers) && CacheOk(t)
    ensures var answer := VirtToPhys(t, a);
            && (0xFFFF_8000_0000_0000 <= a < 0xFFFF_A000_0000_0000 ==> answer == (t, a - 0xFFFF_8000_0000_0000))
            && (forall k :: 0 <= k < |t.headers| && t.headers[k].virt <= a < t.headers[k].virt + t.headers[k].size ==>
                              answer == (t.(cached := Some(k)), t.headers[k].phys + (a - t.headers[k].virt)))
            && (!(0xFFFF_8000_0000_0000 <= a < 0xFFFF_A000_0000_0000)
                && (forall k :: 0 <= k < |t.headers| ==>
                                  !(t.headers[k].virt <= a < t.headers[k].virt + t.headers[k].size))
                ==> answer == (t, 0))
  {
    hide HeadersOk;
    forall k | 0 <= k < |t.headers|
      ensures t.headers[k].Covers(a) <==> t.headers[k].virt <= a < t.headers[k].virt + t.headers[k].size
      ensures t.headers[k].Covers(a) ==> Scan(t.headers, 0, a) == Some(k) == Find(t, a).1
      ensures t.headers[k].Covers(a) ==> VirtToPhys(t, a).1 == t.headers[k].phys + (a - t.headers[k].virt)
      ensures t.headers[k].Covers(a) ==> !(0xFFFF_8000_0000_0000 <= a < 0xFFFF_A000_0000_0000)
    {
      HeaderBounds(h, t.headers, k);
      CachedFindIsScan(h, t, a);
      if t.headers[k].Covers(a) {
        HeaderTranslates(h, t, k, a);
      }
    }
    CachedFindIsScan(h, t, a);
  }

  /** avmf_phys_to_virt answers from the first header in list order whose memory has the address, and with NULL
      exactly if there is none. */
  lemma PhysToVirtExactly(h: Heaps, headers: seq<Header>, p: nat)
    requires HeadersOk(h, headers)
    ensures forall k :: 0 <= k < |headers| && headers[k].phys <= p < headers[k].phys + headers[k].size
                        && (forall j :: 0 <= j < k ==> !(headers[j].phys <= p < headers[j].phys + headers[j].size)) ==>
                          PhysToVirt(headers, p) == headers[k].virt + (p - headers[k].phys)
    ensures PhysToVirt(headers, p) == 0
            <==> forall k :: 0 <= k < |headers| ==> !(headers[k].phys <= p < headers[k].phys + headers[k].size)
  {
    hide HeadersOk;
    forall k | 0 <= k < |headers|
      ensures headers[k].CoversPhys(p) <==> headers[k].phys <= p < headers[k].phys + headers[k].size
      ensures headers[k].CoversPhys(p) ==> 0 < headers[k].virt + (p - headers[k].phys) < TWO64
    {
      HeaderBounds(h, headers, k);
    }
  }

  /** Going to a virtual address and back gives the physical address again, whichever header, live
      or stale, the first step picks. */
  lemma PhysVirtPhys(h: Heaps, t: Table, p: nat)
    requires HeadersOk(h, t.headers) && CacheOk(t)
    requires exists k :: 0 <= k < |t.headers| && t.headers[k].CoversPhys(p)
    ensures VirtToPhys(t, PhysToVirt(t.headers, p)).1 == p
  {
    hide HeadersOk, VirtToPhys, CacheOk;
    var k := ScanPhys(t.headers, 0, p).value;
    HeaderBounds(h, t.headers, k);
    HeaderTranslates(h, t, k, t.headers[k].virt + (p - t.headers[k].phys));
  }

  /** A header for a fresh virtual allocation keeps the headers disjoint. */
  lemma AddRegionKeepsHeaders(h: Heaps, t: Table, size: nat, kind: AllocType, phys: nat, flags: nat)
    requires HeadersOk(h, t.headers) && CacheOk(t) && Fits(h, size, kind)
    requires phys % PAGE_SIZE == 0 && phys + Align4k(size) < TWO64 && AllocVirt(h, size, kind).1 != 0
    ensures var (h', virt) := AllocVirt(h, size, kind);
            var (t', ok) := AddRegion(t, virt, phys, Align4k(size), flags);
            HeadersOk(h', t'.headers) && CacheOk(t') && HeadersOk(h', t.headers)
  {
    hide HeapsOk, Behind, AllocVirt;
    AllocVirtIsNew(h, size, kind);
    var (h', virt) := AllocVirt(h, size, kind);
    assert Align4k(Align4k(size)) == Align4k(size);
    hide Align4k;
    forall i | 0 <= i < |t.headers|
      ensures Behind(h', t.headers[i].Area()) && Interval(virt, Align4k(size)).Apart(t.headers[i].Area())
    {
      assert Behind(h, t.headers[i].Area());
    }
  }
}
