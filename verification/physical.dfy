/** The physical page allocator of avmf.c: a bitmap and a first-fit search for contiguous runs. */
module Physical {
  import opened Words

  const BITMAP_PAGES: nat := 131072
  const MAX_RANGES: nat := 128

  datatype Range = Range(base: nat, limit: nat) {
    function FirstPage(): nat { Align4k(base) / PAGE_SIZE }

    function EndPage(): nat { limit / PAGE_SIZE }

    predicate Usable() { base < limit && FirstPage() < EndPage() }

    /** The page a search of this range starts from: the hint when it lies inside. */
    function SearchStart(hint: nat): nat {
      if FirstPage() <= hint < EndPage() then hint else FirstPage()
    }
  }

  /** What the bitmap holds, as a value: the set of pages whose bit is set. */
  datatype Phys = Phys(ranges: seq<Range>, used: set<nat>, hint: nat)

  predicate FreeRun(used: set<nat>, start: nat, n: nat) {
    forall p :: start <= p < start + n ==> p !in used
  }

  predicate InRun(p: nat, start: nat, n: nat) {
    start <= p < start + n
  }

  function Pages(start: nat, n: nat): (r: set<nat>) {
    set p: nat | p < start + n && InRun(p, start, n)
  }

  lemma {:induction false} PagesCount(start: nat, n: nat)
    ensures |Pages(start, n)| == n
  {
    if n > 0 {
      PagesCount(start, n - 1);
      assert Pages(start, n) == Pages(start, n - 1) + {start + n - 1};
    }
  }

  /** The earliest free run of `need` pages inside [from, end). */
  function FirstRun(used: set<nat>, from: nat, end: nat, need: nat): (r: Option<nat>)
    ensures r.Some? ==>
              && from <= r.value && r.value + need <= end && FreeRun(used, r.value, need)
              && forall q :: from <= q < r.value ==> !FreeRun(used, q, need)
    ensures r.None? ==> forall q :: from <= q && q + need <= end ==> !FreeRun(used, q, need)
    decreases end - from
  {
    if from + need > end then None
    else if FreeRun(used, from, need) then Some(from)
    else if from == end then None
    else FirstRun(used, from + 1, end, need)
  }

  function SearchRange(ph: Phys, i: nat, need: nat): (r: Option<nat>)
    requires i < |ph.ranges|
  {
    var range := ph.ranges[i];
    if range.Usable() then FirstRun(ph.used, range.SearchStart(ph.hint), range.EndPage(), need)
    else None
  }

  /** The run found by the first range, counting from i, that has one. */
  function SearchRanges(ph: Phys, i: nat, need: nat): (r: Option<nat>)
    requires i <= |ph.ranges|
    decreases |ph.ranges| - i
  {
    if i == |ph.ranges| then None
    else
      var here := SearchRange(ph, i, need);
      if here.Some? then here else SearchRanges(ph, i + 1, need)
  }

  lemma {:induction false} SearchRangesPicksFirst(ph: Phys, i: nat, need: nat) returns (k: nat)
    requires i <= |ph.ranges|
    ensures i <= k <= |ph.ranges|
    ensures forall j :: i <= j < k ==> SearchRange(ph, j, need).None?
    ensures SearchRanges(ph, i, need) == if k < |ph.ranges| then SearchRange(ph, k, need) else None
    ensures k < |ph.ranges| ==> SearchRange(ph, k, need).Some?
    decreases |ph.ranges| - i
  {
    if i == |ph.ranges| || SearchRange(ph, i, need).Some? {
      k := i;
    } else {
      k := SearchRangesPicksFirst(ph, i + 1, need);
    }
  }

  /** avmf_alloc_phys_contiguous: the new allocator state and the physical address, 0 on failure. */
  function AllocPhys(ph: Phys, size: nat): (r: (Phys, nat))
    ensures r.0.ranges == ph.ranges
  {
    var need := Align4k(size) / PAGE_SIZE;
    if need == 0 then (ph, 0)
    else match SearchRanges(ph, 0, need)
      case None => (ph, 0)
      case Some(start) =>
        (ph.(used := ph.used + Pages(start, need), hint := start + need), start * PAGE_SIZE)
  }

  /** All bytes of page p lie in one of the ranges. */
  ghost predicate InRam(ranges: seq<Range>, p: nat) {
    exists k :: 0 <= k < |ranges| && ranges[k].base <= p * PAGE_SIZE && (p + 1) * PAGE_SIZE <= ranges[k].limit
  }

  /** The RAM ranges fit the bitmap and leave out page 0. */
  predicate RangesOk(ranges: seq<Range>) {
    forall i :: 0 <= i < |ranges| && ranges[i].Usable() ==>
                  1 <= ranges[i].FirstPage() && ranges[i].EndPage() <= BITMAP_PAGES
  }

  /** The pages from start on, `need` of them, lie wholly between the bytes of range k, and not before the
      hint if the hint's page does too. */
  ghost predicate InOneRange(ph: Phys, k: nat, start: nat, need: nat) {
    && k < |ph.ranges|
    && var r := ph.ranges[k];
       && r.base <= start * PAGE_SIZE && (start + need) * PAGE_SIZE <= r.limit
       && (r.base <= ph.hint * PAGE_SIZE && (ph.hint + 1) * PAGE_SIZE <= r.limit ==> ph.hint <= start)
  }

  predicate Searched(ph: Phys, k: nat, q: nat, need: nat)
    requires k < |ph.ranges|
  {
    var r := ph.ranges[k];
    r.Usable() && r.SearchStart(ph.hint) <= q && q + need <= r.EndPage()
  }

  /** These are the runs the search goes through. */
  lemma RangeInBytes(ph: Phys, k: nat, q: nat, need: nat)
    requires RangesOk(ph.ranges) && need >= 1 && k < |ph.ranges|
    ensures InOneRange(ph, k, q, need) <==> Searched(ph, k, q, need)
  {
    var r := ph.ranges[k];
    if r.base + PAGE_SIZE <= TWO64 {
      FirstPageInBytes(r, q);
      FirstPageInBytes(r, ph.hint);
      FirstPageInBytes(r, q + need);
      FirstPageInBytes(r, ph.hint + 1);
    } else {
      if r.base < r.limit {
        FarRange(r);
      }
    }
    hide Align4k;
  }

  /** A range that starts in the last page of the 64-bit space, or past it, would be too long for the bitmap. */
  lemma FarRange(r: Range)
    requires r.base + PAGE_SIZE > TWO64 && r.base < r.limit
    ensures r.Usable() && r.EndPage() > BITMAP_PAGES
  {
  }

  lemma FirstPageInBytes(r: Range, p: nat)
    requires r.base + PAGE_SIZE <= TWO64
    ensures r.FirstPage() <= p <==> r.base <= p * PAGE_SIZE
    ensures p <= r.EndPage() <==> p * PAGE_SIZE <= r.limit
  {
  }

  /** Success is the earliest free run of the first range that has one, wholly inside that range,
      and marks exactly that run; failure means that no range has one from its start point on. */
  lemma AllocPhysFirstFit(ph: Phys, size: nat)
    requires 0 < size && size + PAGE_SIZE <= TWO64 && RangesOk(ph.ranges)
    ensures var (ph', phys) := AllocPhys(ph, size);
            var need := Align4k(size) / PAGE_SIZE;
            && need >= 1
            && (phys == 0 ==>
                  && ph' == ph
                  && forall k: nat, q: nat :: InOneRange(ph, k, q, need) ==> !FreeRun(ph.used, q, need))
            && (phys != 0 ==>
                  var start := phys / PAGE_SIZE;
                  && phys == start * PAGE_SIZE && 1 <= start && start + need <= BITMAP_PAGES
                  && FreeRun(ph.used, start, need)
                  && (forall p :: p in ph'.used <==> p in ph.used || start <= p < start + need)
                  && ph'.ranges == ph.ranges && ph'.hint == start + need
                  && exists k: nat :: InOneRange(ph, k, start, need)
                       && (forall q: nat :: InOneRange(ph, k, q, need) && q < start ==> !FreeRun(ph.used, q, need))
                       && (forall j: nat, q: nat ::
                             j < k && InOneRange(ph, j, q, need) ==> !FreeRun(ph.used, q, need)))
  {
    var need := Align4k(size) / PAGE_SIZE;
    var k := SearchRangesPicksFirst(ph, 0, need);
    forall j: nat, q: nat | j < |ph.ranges|
      ensures InOneRange(ph, j, q, need) <==> Searched(ph, j, q, need)
    {
      RangeInBytes(ph, j, q, need);
    }
    hide InOneRange, Align4k;
    forall j: nat, q: nat | j < k && InOneRange(ph, j, q, need)
      ensures !FreeRun(ph.used, q, need)
    {
      assert SearchRange(ph, j, need).None?;
    }
    if k < |ph.ranges| {
      var start := SearchRange(ph, k, need).value;
      assert InOneRange(ph, k, start, need);
    }
  }

  /** The static bitmap, range table and hint of avmf.c. */
  class PhysBitmap {
    const words: array<Word>
    const base: array<nat>
    const limit: array<nat>
    var lastAllocPage: nat

    ghost var used: set<nat>

    ghost predicate Valid()
      reads this, words
    {
      && words.Length * 64 == BITMAP_PAGES
      && base != limit
      && base.Length == limit.Length == MAX_RANGES
      && (forall p :: p in used ==> p < BITMAP_PAGES)
      && (forall p: nat :: p < BITMAP_PAGES ==> (p in used <==> Bit(words[p / 64], p % 64)))
    }

    ghost function Ranges(): seq<Range>
      requires base.Length == limit.Length == MAX_RANGES
      reads base, limit
    {
      seq(MAX_RANGES,
          i requires 0 <= i < MAX_RANGES && base.Length == limit.Length == MAX_RANGES reads base, limit =>
            Range(base[i], limit[i]))
    }

    ghost function Contents(): Phys
      requires base.Length == limit.Length == MAX_RANGES
      reads this, base, limit
    {
      Phys(Ranges(), used, lastAllocPage)
    }

    /** The statics as the program finds them: all zero. */
    constructor ()
      ensures Valid() && fresh(words) && fresh(base) && fresh(limit)
      ensures used == {} && lastAllocPage == 0
      ensures forall i :: 0 <= i < MAX_RANGES ==> base[i] == limit[i] == 0
    {
      words := new Word[2048](_ => 0);
      base := new nat[128](_ => 0);
      limit := new nat[128](_ => 0);
      lastAllocPage := 0;
      used := {};
      new;
      forall p: nat | p < BITMAP_PAGES
        ensures !Bit(words[p / 64], p % 64)
      {
        ZeroHasNoBits(p % 64);
      }
    }

    /** avmf_init; the caller finds the statics still zero, so clearing 200 words changes nothing. */
    method Init(ranges: seq<Range>)
      requires Valid() && |ranges| <= MAX_RANGES && used == {}
      requires forall i :: 0 <= i < MAX_RANGES ==> base[i] == limit[i] == 0
      modifies words, base, limit
      ensures Valid()
      ensures Ranges() == ranges + seq(MAX_RANGES - |ranges|, i => Range(0, 0))
    {
      var i := 0;
      while i < |ranges|
        invariant 0 <= i <= |ranges|
        invariant forall k :: 0 <= k < i ==> base[k] == ranges[k].base && limit[k] == ranges[k].limit
        invariant forall k :: i <= k < MAX_RANGES ==> base[k] == 0 && limit[k] == 0
        invariant Valid()
      {
        base[i] := ranges[i].base;
        limit[i] := ranges[i].limit;
        i := i + 1;
      }
      i := 0;
      ghost var table := Ranges();
      while i < 200
        invariant 0 <= i <= 200 && Valid() && Ranges() == table
      {
        words[i] := 0;
        forall k: nat
          ensures !Bit(0, k)
        {
          ZeroHasNoBits(k);
        }
        i := i + 1;
      }
    }

    method Set(p: nat)
      requires Valid() && p < BITMAP_PAGES
      modifies words, `used
      ensures Valid() && used == old(used) + {p}
    {
      ghost var w := words[p / 64];
      Pow2Values();
      BitUpdateFits(w, p % 64, 64);
      words[p / 64] := SetBit(words[p / 64], p % 64);
      used := used + {p};
      forall q: nat | q < BITMAP_PAGES
        ensures q in used <==> Bit(words[q / 64], q % 64)
      {
        SetBitExact(w, p % 64, q % 64);
      }
    }

    method Clear(p: nat)
      requires Valid() && p < BITMAP_PAGES
      modifies words, `used
      ensures Valid() && used == old(used) - {p}
    {
      ghost var w := words[p / 64];
      Pow2Values();
      BitUpdateFits(w, p % 64, 64);
      words[p / 64] := ClearBit(words[p / 64], p % 64);
      used := used - {p};
      forall q: nat | q < BITMAP_PAGES
        ensures q in used <==> Bit(words[q / 64], q % 64)
      {
        ClearBitExact(w, p % 64, q % 64);
      }
    }

    method Test(p: nat) returns (r: bool)
      requires Valid() && p < BITMAP_PAGES
      ensures r <==> p in used
    {
      r := Bit(words[p / 64], p % 64);
    }

    /** The counting scan of one range: a run counter that restarts after every used page. */
    method Scan(start: nat, end: nat, need: nat) returns (found: Option<nat>)
      requires Valid() && need > 0 && start <= end <= BITMAP_PAGES
      ensures found == FirstRun(used, start, end, need)
    {
      var p, runStart, runLen := start, 0, 0;
      while p < end
        invariant start <= p <= end && runLen < need && start + runLen <= p
        invariant runLen > 0 ==> runStart == p - runLen
        invariant FreeRun(used, p - runLen, runLen)
        invariant FirstRun(used, start, end, need) == FirstRun(used, p - runLen, end, need)
      {
        hide FirstRun, Bit;
        var taken := Test(p);
        if !taken {
          if runLen == 0 {
            runStart := p;
          }
          runLen := runLen + 1;
          if runLen >= need {
            return Some(runStart);
          }
        } else {
          SkipPast(used, p - runLen, p, end, need);
          runLen := 0;
        }
        p := p + 1;
      }
      SkipPast(used, p - runLen, p, end, need);
      return None;
    }

    /** avmf_alloc_phys_contiguous. */
    method AllocContiguous(size: nat) returns (phys: nat)
      requires Valid() && RangesOk(Ranges())
      modifies `lastAllocPage, `used, words
      ensures Valid() && (Contents(), phys) == AllocPhys(old(Contents()), size)
    {
      var need := Align4k(size) / PAGE_SIZE;
      if need == 0 {
        return 0;
      }
      ghost var ph := Contents();
      var i := 0;
      while i < MAX_RANGES
        invariant 0 <= i <= MAX_RANGES && Valid() && Contents() == ph
        invariant SearchRanges(ph, 0, need) == SearchRanges(ph, i, need)
      {
        var range := Range(base[i], limit[i]);
        assert range == ph.ranges[i];
        if range.Usable() {
          var found := Scan(range.SearchStart(lastAllocPage), range.EndPage(), need);
          if found.Some? {
            phys := TakeRun(found.value, need);
            return;
          }
        }
        i := i + 1;
      }
      return 0;
    }

    method TakeRun(start: nat, need: nat) returns (phys: nat)
      requires Valid() && start + need <= BITMAP_PAGES
      modifies `lastAllocPage, `used, words
      ensures Valid() && used == old(used) + Pages(start, need)
      ensures lastAllocPage == start + need && phys == start * PAGE_SIZE
    {
      var j := 0;
      while j < need
        invariant 0 <= j <= need && Valid()
        invariant used == old(used) + Pages(start, j)
      {
        Set(start + j);
        j := j + 1;
      }
      lastAllocPage := start + need;
      phys := start * PAGE_SIZE;
    }

    /** The bitmap part of avmf_free. */
    method Release(page: nat, n: nat)
      requires Valid() && page + n <= BITMAP_PAGES
      modifies `used, words
      ensures Valid() && used == old(used) - Pages(page, n)
    {
      var i := 0;
      while i < n
        invariant 0 <= i <= n && Valid()
        invariant used == old(used) - Pages(page, i)
      {
        Clear(page + i);
        i := i + 1;
      }
    }
  }

  /** A used page (or the end) at `stop` rules out every run that starts at or before it. */
  lemma {:induction false} SkipPast(used: set<nat>, from: nat, stop: nat, end: nat, need: nat)
    requires from <= stop <= end && stop - from < need
    requires stop == end || stop in used
    ensures stop < end ==> FirstRun(used, from, end, need) == FirstRun(used, stop + 1, end, need)
    ensures stop == end ==> FirstRun(used, from, end, need).None?
    decreases stop - from
  {
    if stop < end && from + need <= end {
      assert !FreeRun(used, from, need) by {
        assert from <= stop < from + need;
      }
      if from < stop {
        SkipPast(used, from + 1, stop, end, need);
      }
    }
  }
}
