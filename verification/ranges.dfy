/** pager_map_range: promotion to 2 MiB pages means the same as mapping page by page. */
module RangeMapping {
  import opened Words
  import opened Regions
  import opened Paging
  import opened Addresses
  import opened MemoryState
  import opened Mapping

  /** A request pager_map_range is given: page aligned, inside the processor's physical space, no
      longer than the 48-bit space, without bit 7 among the flags. */
  predicate RangeOk(s: Mem, virt: nat, phys: nat, size: nat, flags: nat) {
    && s.physBits <= 52 && virt < TWO64 && virt % PAGE_SIZE == 0 && phys % PAGE_SIZE == 0
    && phys + size <= Pow2(s.physBits)
    && size <= SPACE_PAGES * PAGE_SIZE
    && !Huge(flags)
  }

  /** Pages of a range; the last one may be partial. */
  function PageCount(size: nat): nat { (size + PAGE_SIZE - 1) / PAGE_SIZE }

  /** Pages from..to of the range at virt go to the frames from phys on; all else stays. */
  ghost predicate RangeMapped(s: Mem, s': Mem, virt: nat, phys: nat, flags: nat, from: nat, to: nat) {
    forall w :: TreeWalk(s'.pages, s'.root, w)
                == if from <= Offset(virt, w) < to then Some(Leaf(phys / PAGE_SIZE + Offset(virt, w), Attrs(flags)))
                   else TreeWalk(s.pages, s.root, w)
  }

  /** No page of the range lies in a 2 MiB slot that is mapped whole. */
  ghost predicate SlotsFree(s: Mem, virt: nat, from: nat, to: nat) {
    forall w :: from <= Offset(virt, w) < to ==> !HugeSlot(s.pages, s.root, w)
  }

  /** The whole slot of w lies in pages from..to of the range. */
  ghost predicate SlotInside(virt: nat, from: nat, to: nat, w: VPage) {
    forall u :: PtNode(u) == PtNode(w) ==> from <= Offset(virt, u) < to
  }

  ghost predicate NewSlotsInside(s: Mem, s': Mem, virt: nat, from: nat, to: nat) {
    forall w :: HugeSlot(s'.pages, s'.root, w) ==> HugeSlot(s.pages, s.root, w) || SlotInside(virt, from, to, w)
  }

  /** What a step of the loop is asked to map, in pages. */
  lemma StepAddresses(s: Mem, virt: nat, phys: nat, size: nat, flags: nat, k: nat)
    requires RangeOk(s, virt, phys, size, flags) && k * PAGE_SIZE < size
    ensures var done := k * PAGE_SIZE;
            && (virt + done) % TWO64 == PageAddress(virt, k)
            && (phys + done) % TWO64 == phys + done < Pow2(s.physBits)
            && (phys + done) / PAGE_SIZE == phys / PAGE_SIZE + k
            && k < PageCount(size) <= SPACE_PAGES
  {
    PhysFits(s.physBits, phys + k * PAGE_SIZE);
  }

  /** The effect of mapping pages from..to of a range, with what the pager keeps meanwhile. */
  ghost predicate Done(s: Mem, s': Mem, virt: nat, phys: nat, flags: nat, from: nat, to: nat) {
    && PagerOk(s') && Extends(s, s') && s'.physBits == s.physBits
    && RangeMapped(s, s', virt, phys, flags, from, to)
    && NewSlotsInside(s, s', virt, from, to)
  }

  lemma DoneNothing(s: Mem, virt: nat, phys: nat, flags: nat, from: nat, to: nat)
    requires PagerOk(s) && to <= from
    ensures Done(s, s, virt, phys, flags, from, to)
  {
  }

  lemma DoneTwice(s: Mem, s1: Mem, s2: Mem, virt: nat, phys: nat, flags: nat, from: nat, mid: nat, to: nat)
    requires from <= mid <= to
    requires Done(s, s1, virt, phys, flags, from, mid) && Done(s1, s2, virt, phys, flags, mid, to)
    ensures Done(s, s2, virt, phys, flags, from, to)
  {
    hide TreeWalk, HugeSlot, Offset, PagerOk, Attrs;
  }

  /** Slots newly mapped whole lie in the pages done, so the pages to come stay free. */
  lemma RestStaysFree(s: Mem, s': Mem, virt: nat, from: nat, mid: nat, to: nat)
    requires SlotsFree(s, virt, from, to) && NewSlotsInside(s, s', virt, from, mid) && from <= mid
    ensures SlotsFree(s', virt, mid, to)
  {
    forall w | mid <= Offset(virt, w) < to
      ensures !HugeSlot(s'.pages, s'.root, w)
    {
      assert PtNode(w) == PtNode(w);
    }
  }

  lemma SmallStep(s: Mem, virt: nat, phys: nat, flags: nat, k: nat)
    requires PagerOk(s) && !Huge(flags) && k < SPACE_PAGES
    requires phys + k * PAGE_SIZE < Pow2(s.physBits) && phys % PAGE_SIZE == 0
    requires !HugeSlot(s.pages, s.root, VPageOf(PageAddress(virt, k)))
    requires !MapPage(s, PageAddress(virt, k), phys + k * PAGE_SIZE, flags).failed
    ensures Done(s, MapPage(s, PageAddress(virt, k), phys + k * PAGE_SIZE, flags), virt, phys, flags, k, k + 1)
  {
    hide MapPage, TreeWalk, HugeSlot, Offset, VPageOf, PageAddress, PagerOk, Extends, Attrs, Pow2;
    var v := VPageOf(PageAddress(virt, k));
    MapSmall(s, PageAddress(virt, k), phys + k * PAGE_SIZE, flags);
    assert (phys + k * PAGE_SIZE) / PAGE_SIZE == phys / PAGE_SIZE + k;
    forall w
      ensures w == v <==> Offset(virt, w) == k
    {
      OffsetExact(virt, k, w);
    }
  }

  /** The plain loop, from page k on. */
  lemma {:induction false} MapPagesFrom(s: Mem, virt: nat, phys: nat, size: nat, flags: nat, k: nat)
    requires PagerOk(s) && RangeOk(s, virt, phys, size, flags)
    requires SlotsFree(s, virt, k, PageCount(size))
    requires !MapPages(s, virt, phys, size, flags, k * PAGE_SIZE).failed
    ensures Done(s, MapPages(s, virt, phys, size, flags, k * PAGE_SIZE), virt, phys, flags, k, PageCount(size))
    decreases PageCount(size) - k
  {
    hide MapPage, Offset, VPageOf, PageAddress, PagerOk, Extends, RangeMapped, NewSlotsInside, Attrs, Pow2;
    var n := PageCount(size);
    if k * PAGE_SIZE >= size {
      DoneNothing(s, virt, phys, flags, k, n);
      return;
    }
    StepAddresses(s, virt, phys, size, flags, k);
    OffsetExact(virt, k, VPageOf(PageAddress(virt, k)));
    var s1 := MapPage(s, PageAddress(virt, k), phys + k * PAGE_SIZE, flags);
    assert MapPages(s, virt, phys, size, flags, k * PAGE_SIZE)
        == MapPages(s1, virt, phys, size, flags, (k + 1) * PAGE_SIZE);
    SmallStep(s, virt, phys, flags, k);
    RestStaysFree(s, s1, virt, k, k + 1, n);
    MapPagesFrom(s1, virt, phys, size, flags, k + 1);
    DoneTwice(s, s1, MapPages(s1, virt, phys, size, flags, (k + 1) * PAGE_SIZE), virt, phys, flags, k, k + 1, n);
  }

  // ----- the promoting loop on any page tables

  /** The loop, from page `from` on, maps the slot of w with one 2 MiB step. */
  predicate WholeStep(virt: nat, phys: nat, size: nat, from: nat, w: VPage) {
    var k := Offset(virt, w) - w.i1;
    from <= k && k * PAGE_SIZE <= size && Promotes(virt, phys, size, k * PAGE_SIZE)
  }

  /** The loop takes effect on page w: the page is in the range, and if its slot is mapped whole the loop
      sets the whole slot anew. */
  ghost predicate Takes(s: Mem, virt: nat, phys: nat, size: nat, from: nat, w: VPage) {
    && from <= Offset(virt, w) < PageCount(size)
    && (HugeSlot(s.pages, s.root, w) ==> WholeStep(virt, phys, size, from, w))
  }

  /** A page of the range on which the loop takes no effect: the entry is written into the first frame
      of the slot, as if that were a table. */
  ghost predicate Lost(s: Mem, virt: nat, phys: nat, size: nat, from: nat, w: VPage) {
    && from <= Offset(virt, w) < PageCount(size)
    && HugeSlot(s.pages, s.root, w) && !WholeStep(virt, phys, size, from, w)
  }

  /** No lost entry is written into a page table of the state the loop ends in. */
  ghost predicate LostMissTables(s: Mem, s': Mem, virt: nat, phys: nat, size: nat, from: nat) {
    forall w :: Lost(s, virt, phys, size, from, w) ==> Run(SlotFrame(s.pages, s.root, w), 1, PageTable) !in s'.runs
  }

  /** What the loop does to every page of the 48-bit space. */
  ghost predicate Effect(s: Mem, s': Mem, virt: nat, phys: nat, size: nat, flags: nat, from: nat) {
    && (forall w :: TreeWalk(s'.pages, s'.root, w)
                    == if Takes(s, virt, phys, size, from, w)
                       then Some(Leaf(phys / PAGE_SIZE + Offset(virt, w), Attrs(flags)))
                       else TreeWalk(s.pages, s.root, w))
    && (forall w :: HugeSlot(s'.pages, s'.root, w)
                    == (HugeSlot(s.pages, s.root, w) || WholeStep(virt, phys, size, from, w)))
  }

  /** What one step does: pages k..mid, a slot mapped whole (or not) as asked. */
  ghost predicate StepEffect(s: Mem, s1: Mem, virt: nat, phys: nat, flags: nat, k: nat, mid: nat, whole: bool) {
    && (forall w :: TreeWalk(s1.pages, s1.root, w)
                    == if k <= Offset(virt, w) < mid && (whole || !HugeSlot(s.pages, s.root, w))
                       then Some(Leaf(phys / PAGE_SIZE + Offset(virt, w), Attrs(flags)))
                       else TreeWalk(s.pages, s.root, w))
    && (forall w :: HugeSlot(s1.pages, s1.root, w)
                    == (HugeSlot(s.pages, s.root, w) || (whole && k <= Offset(virt, w) < mid)))
  }

  lemma SlotOfFrame(phys: nat)
    requires phys % SLOT_SIZE == 0
    ensures SlotStart(phys) == phys / PAGE_SIZE
  {
  }

  lemma WholeStepEffect(s: Mem, virt: nat, phys: nat, flags: nat, k: nat)
    requires PagerOk(s) && !Huge(flags) && k + SLOT_PAGES <= SPACE_PAGES
    requires phys + k * PAGE_SIZE < Pow2(s.physBits) && phys % PAGE_SIZE == 0
    requires PageAddress(virt, k) % SLOT_SIZE == 0 && (phys + k * PAGE_SIZE) % SLOT_SIZE == 0
    requires !MapPage(s, PageAddress(virt, k), phys + k * PAGE_SIZE, OrHuge(flags)).failed
    ensures var s1 := MapPage(s, PageAddress(virt, k), phys + k * PAGE_SIZE, OrHuge(flags));
            PagerOk(s1) && Extends(s, s1) && StepEffect(s, s1, virt, phys, flags, k, k + SLOT_PAGES, true)
  {
    hide MapPage, TreeWalk, HugeSlot, Offset, VPageOf, PageAddress, PagerOk, Extends, Attrs, Pow2;
    MapHuge(s, PageAddress(virt, k), phys + k * PAGE_SIZE, flags);
    SlotOfFrame(phys + k * PAGE_SIZE);
    assert (phys + k * PAGE_SIZE) / PAGE_SIZE == phys / PAGE_SIZE + k;
    var slot := PtNode(VPageOf(PageAddress(virt, k)));
    forall w
      ensures PtNode(w) == slot <==> k <= Offset(virt, w) < k + SLOT_PAGES
      ensures PtNode(w) == slot ==> Offset(virt, w) == k + w.i1
    {
      SlotOffsets(virt, k, w);
    }
  }

  lemma SmallStepEffect(s: Mem, virt: nat, phys: nat, flags: nat, k: nat)
    requires PagerOk(s) && !Huge(flags) && k < SPACE_PAGES
    requires phys + k * PAGE_SIZE < Pow2(s.physBits) && phys % PAGE_SIZE == 0
    requires var v := VPageOf(PageAddress(virt, k));
             HugeSlot(s.pages, s.root, v) ==> !IsTable(s.pages, s.root, SlotFrame(s.pages, s.root, v))
    requires !MapPage(s, PageAddress(virt, k), phys + k * PAGE_SIZE, flags).failed
    ensures var s1 := MapPage(s, PageAddress(virt, k), phys + k * PAGE_SIZE, flags);
            PagerOk(s1) && Extends(s, s1) && StepEffect(s, s1, virt, phys, flags, k, k + 1, false)
  {
    hide MapPage, TreeWalk, HugeSlot, Offset, VPageOf, PageAddress, PagerOk, Extends, Attrs, Pow2, SlotFrame;
    var v := VPageOf(PageAddress(virt, k));
    assert (phys + k * PAGE_SIZE) / PAGE_SIZE == phys / PAGE_SIZE + k;
    forall w
      ensures w == v <==> Offset(virt, w) == k
    {
      OffsetExact(virt, k, w);
    }
    if HugeSlot(s.pages, s.root, v) {
      LostWrite(s, PageAddress(virt, k), phys + k * PAGE_SIZE, flags);
    } else {
      MapSmall(s, PageAddress(virt, k), phys + k * PAGE_SIZE, flags);
    }
  }

  /** A 4 KiB mapping into a slot mapped whole writes entry i1 of the slot's first frame. */
  lemma LostEntry(s: Mem, virt: nat, phys: nat, flags: nat)
    requires TreeOk(s.pages, s.root) && phys < Pow2(s.physBits) && !Huge(flags)
    requires HugeSlot(s.pages, s.root, VPageOf(virt))
    ensures var v := VPageOf(virt);
            MapPage(s, virt, phys, flags)
            == s.(pages := Store(s.pages, SlotFrame(s.pages, s.root, v), v.i1, SmallEntry(phys, flags)))
  {
    PdIsReached(s, VPageOf(virt));
  }

  /** If that frame holds no table, no translation changes. */
  lemma LostWrite(s: Mem, virt: nat, phys: nat, flags: nat)
    requires PagerOk(s) && phys < Pow2(s.physBits) && !Huge(flags)
    requires HugeSlot(s.pages, s.root, VPageOf(virt))
    requires !IsTable(s.pages, s.root, SlotFrame(s.pages, s.root, VPageOf(virt)))
    ensures var s' := MapPage(s, virt, phys, flags); PagerOk(s') && Extends(s, s') && SameTranslation(s, s')
  {
    hide MapPage, Pow2, VPageOf, SlotFrame, Store, LedgerOk, HeadersOk, TreeOk, TreeWalk, HugeSlot, IsTable;
    LostEntry(s, virt, phys, flags);
    ExtendsItself(s);
    var v := VPageOf(virt);
    var frame, e := SlotFrame(s.pages, s.root, v), SmallEntry(phys, flags);
    StoreOutsideTables(s.pages, s.root, frame, v.i1, e);
    forall w
      ensures TreeWalk(Store(s.pages, frame, v.i1, e), s.root, w) == TreeWalk(s.pages, s.root, w)
      ensures HugeSlot(Store(s.pages, frame, v.i1, e), s.root, w) == HugeSlot(s.pages, s.root, w)
    {
      StoreOutsideWalk(s.pages, s.root, frame, v.i1, e, w);
    }
  }

  lemma SlotMultiple(a: nat, j: nat, k: nat)
    requires j <= k && (a + j * PAGE_SIZE) % TWO64 % SLOT_SIZE == 0 && (a + k * PAGE_SIZE) % TWO64 % SLOT_SIZE == 0
    ensures j == k || j + SLOT_PAGES <= k
  {
    AlignedWrap(a + j * PAGE_SIZE);
    AlignedWrap(a + k * PAGE_SIZE);
    var p, q := (a + j * PAGE_SIZE) / SLOT_SIZE, (a + k * PAGE_SIZE) / SLOT_SIZE;
    assert (k - j) * PAGE_SIZE == (q - p) * SLOT_SIZE;
    assert k - j == (q - p) * SLOT_PAGES;
  }

  lemma AlignedWrap(a: nat)
    requires a % TWO64 % SLOT_SIZE == 0
    ensures a % SLOT_SIZE == 0
  {
    var q, r := a / TWO64, a % TWO64;
    assert a == q * TWO64 + r && r == r / SLOT_SIZE * SLOT_SIZE;
    assert a == (q * 0x800_0000_0000 + r / SLOT_SIZE) * SLOT_SIZE;
  }

  /** The 2 MiB steps from page k on are the one made now, if it is one, and those made later. */
  lemma WholeStepSplit(virt: nat, phys: nat, size: nat, k: nat, w: VPage)
    requires k * PAGE_SIZE < size <= SPACE_PAGES * PAGE_SIZE
    ensures var whole := Promotes(virt, phys, size, k * PAGE_SIZE);
            var mid := if whole then k + SLOT_PAGES else k + 1;
            WholeStep(virt, phys, size, k, w)
            <==> (whole && k <= Offset(virt, w) < mid) || WholeStep(virt, phys, size, mid, w)
  {
    hide Offset, VPageOf;
    var whole := Promotes(virt, phys, size, k * PAGE_SIZE);
    var j := Offset(virt, w) - w.i1;
    if whole {
      SlotOffsets(virt, k, w);
      if WholeStep(virt, phys, size, k, w) {
        SlotMultiple(virt, k, j);
      }
    }
  }

  /** Once past the last page there is nothing left to map. */
  lemma EffectOfNothing(s: Mem, virt: nat, phys: nat, size: nat, flags: nat, k: nat)
    requires k * PAGE_SIZE >= size
    ensures Effect(s, s, virt, phys, size, flags, k)
  {
    hide TreeWalk, HugeSlot, Offset;
    forall w
      ensures !WholeStep(virt, phys, size, k, w)
    {
      var j := Offset(virt, w) - w.i1;
      if k <= j {
        assert k * PAGE_SIZE <= j * PAGE_SIZE;
      }
    }
  }

  lemma StepFits(virt: nat, phys: nat, size: nat, k: nat)
    requires k * PAGE_SIZE < size
    ensures k < PageCount(size)
    ensures Promotes(virt, phys, size, k * PAGE_SIZE) ==> k + SLOT_PAGES <= PageCount(size)
  {
  }

  lemma EffectTwice(s: Mem, s1: Mem, s2: Mem, virt: nat, phys: nat, size: nat, flags: nat, k: nat)
    requires k * PAGE_SIZE < size <= SPACE_PAGES * PAGE_SIZE
    requires var whole := Promotes(virt, phys, size, k * PAGE_SIZE);
             var mid := if whole then k + SLOT_PAGES else k + 1;
             StepEffect(s, s1, virt, phys, flags, k, mid, whole) && Effect(s1, s2, virt, phys, size, flags, mid)
    ensures Effect(s, s2, virt, phys, size, flags, k)
  {
    hide TreeWalk, HugeSlot, Offset, WholeStep, Attrs, Promotes;
    var whole := Promotes(virt, phys, size, k * PAGE_SIZE);
    var mid := if whole then k + SLOT_PAGES else k + 1;
    StepFits(virt, phys, size, k);
    forall w
      ensures WholeStep(virt, phys, size, k, w)
              <==> (whole && k <= Offset(virt, w) < mid) || WholeStep(virt, phys, size, mid, w)
      ensures WholeStep(virt, phys, size, mid, w) ==> mid <= Offset(virt, w)
    {
      WholeStepSplit(virt, phys, size, k, w);
      WholeStepLater(virt, phys, size, mid, w);
    }
  }

  lemma WholeStepLater(virt: nat, phys: nat, size: nat, from: nat, w: VPage)
    ensures WholeStep(virt, phys, size, from, w) ==> from <= Offset(virt, w) < PageCount(size)
  {
    hide Offset;
  }

  /** Entries lost later miss the tables too. */
  lemma LaterLost(s: Mem, s1: Mem, s': Mem, virt: nat, phys: nat, size: nat, flags: nat, k: nat)
    requires k * PAGE_SIZE < size <= SPACE_PAGES * PAGE_SIZE && LostMissTables(s, s', virt, phys, size, k)
    requires TreeOk(s.pages, s.root) && TreeOk(s1.pages, s1.root)
    requires var whole := Promotes(virt, phys, size, k * PAGE_SIZE);
             var mid := if whole then k + SLOT_PAGES else k + 1;
             StepEffect(s, s1, virt, phys, flags, k, mid, whole)
    ensures var mid := if Promotes(virt, phys, size, k * PAGE_SIZE) then k + SLOT_PAGES else k + 1;
            LostMissTables(s1, s', virt, phys, size, mid)
  {
    hide TreeWalk, HugeSlot, Offset, WholeStep, Attrs, Promotes, TreeOk, SlotFrame;
    var whole := Promotes(virt, phys, size, k * PAGE_SIZE);
    var mid := if whole then k + SLOT_PAGES else k + 1;
    forall w | Lost(s1, virt, phys, size, mid, w)
      ensures Run(SlotFrame(s1.pages, s1.root, w), 1, PageTable) !in s'.runs
    {
      WholeStepSplit(virt, phys, size, k, w);
      WholeSlotWalk(s.pages, s.root, w);
      WholeSlotWalk(s1.pages, s1.root, w);
      assert Lost(s, virt, phys, size, k, w);
    }
  }

  /** The page the loop is at, if it is lost, is written to no table. */
  lemma LostNow(s: Mem, s': Mem, virt: nat, phys: nat, size: nat, k: nat)
    requires k * PAGE_SIZE < size <= SPACE_PAGES * PAGE_SIZE && !Promotes(virt, phys, size, k * PAGE_SIZE)
    requires LostMissTables(s, s', virt, phys, size, k) && TablesOk(s.pages, s.root, s.runs) && s.runs <= s'.runs
    requires HugeSlot(s.pages, s.root, VPageOf(PageAddress(virt, k)))
    ensures !IsTable(s.pages, s.root, SlotFrame(s.pages, s.root, VPageOf(PageAddress(virt, k))))
  {
    hide HugeSlot, Offset, Promotes, TreeOk, SlotFrame, VPageOf, PageAddress;
    var v := VPageOf(PageAddress(virt, k));
    OffsetExact(virt, k, v);
    assert Lost(s, virt, phys, size, k, v);
    var frame := SlotFrame(s.pages, s.root, v);
    forall q
      ensures TableAt(s.pages, s.root, q) != Some(frame)
    {
      var t := TableAt(s.pages, s.root, q);
      assert t.Some? ==> Run(t.value, 1, PageTable) in s.runs;
    }
  }

  /** The promoting loop, from page k on, on any page tables: it takes effect exactly on the pages of the
      range whose slot is not mapped whole, or is set anew by a 2 MiB step. */
  lemma {:induction false} MapRangeExact(s: Mem, virt: nat, phys: nat, size: nat, flags: nat, k: nat)
    requires PagerOk(s) && RangeOk(s, virt, phys, size, flags)
    requires !MapRange(s, virt, phys, size, flags, k * PAGE_SIZE).failed
    requires LostMissTables(s, MapRange(s, virt, phys, size, flags, k * PAGE_SIZE), virt, phys, size, k)
    ensures var s' := MapRange(s, virt, phys, size, flags, k * PAGE_SIZE);
            PagerOk(s') && Extends(s, s') && Effect(s, s', virt, phys, size, flags, k)
    decreases PageCount(size) - k
  {
    hide MapPage, Offset, VPageOf, PageAddress, BooksOk, TreeOk, Extends, Effect, Attrs, Pow2, LostMissTables;
    hide StepEffect, TreeWalk, HugeSlot;
    if k * PAGE_SIZE >= size {
      EffectOfNothing(s, virt, phys, size, flags, k);
      ExtendsItself(s);
      return;
    }
    StepAddresses(s, virt, phys, size, flags, k);
    var whole := Promotes(virt, phys, size, k * PAGE_SIZE);
    var s1 := MapPage(s, PageAddress(virt, k), phys + k * PAGE_SIZE, if whole then OrHuge(flags) else flags);
    var mid := if whole then k + SLOT_PAGES else k + 1;
    var s' := MapRange(s1, virt, phys, size, flags, mid * PAGE_SIZE);
    assert MapRange(s, virt, phys, size, flags, k * PAGE_SIZE) == s';
    if whole {
      WholeStepEffect(s, virt, phys, flags, k);
    } else {
      MapRangeBooks(s, virt, phys, size, flags, k * PAGE_SIZE);
      ExtendsRuns(s, s');
      if HugeSlot(s.pages, s.root, VPageOf(PageAddress(virt, k))) {
        LostNow(s, s', virt, phys, size, k);
      }
      SmallStepEffect(s, virt, phys, flags, k);
    }
    LaterLost(s, s1, s', virt, phys, size, flags, k);
    MapRangeExact(s1, virt, phys, size, flags, mid);
    EffectTwice(s, s1, s', virt, phys, size, flags, k);
    ExtendsTwice(s, s1, s');
  }

  lemma ExtendsRuns(s: Mem, s': Mem)
    requires Extends(s, s')
    ensures s.runs <= s'.runs
  {
  }

  /** Where no page of the range lies in a slot mapped whole, the loop maps exactly the range. */
  lemma MapRangeFrom(s: Mem, virt: nat, phys: nat, size: nat, flags: nat, k: nat)
    requires PagerOk(s) && RangeOk(s, virt, phys, size, flags)
    requires SlotsFree(s, virt, k, PageCount(size))
    requires !MapRange(s, virt, phys, size, flags, k * PAGE_SIZE).failed
    ensures Done(s, MapRange(s, virt, phys, size, flags, k * PAGE_SIZE), virt, phys, flags, k, PageCount(size))
  {
    hide MapRange, Offset, VPageOf, BooksOk, TreeOk, Extends, Attrs, Pow2, TreeWalk, HugeSlot, WholeStep;
    MapRangeExact(s, virt, phys, size, flags, k);
    forall w | WholeStep(virt, phys, size, k, w)
      ensures SlotInside(virt, k, PageCount(size), w)
    {
      WholeStepInside(virt, phys, size, k, w);
    }
  }

  lemma WholeStepInside(virt: nat, phys: nat, size: nat, from: nat, w: VPage)
    requires WholeStep(virt, phys, size, from, w) && size <= SPACE_PAGES * PAGE_SIZE
    ensures SlotInside(virt, from, PageCount(size), w)
  {
    hide Offset, VPageOf;
    var k := Offset(virt, w) - w.i1;
    SlotOffsets(virt, k, w);
    forall u | PtNode(u) == PtNode(w)
      ensures from <= Offset(virt, u) < PageCount(size)
    {
      SlotOffsets(virt, k, u);
    }
  }

  /** Promotion refines the plain loop: as long as both find memory for their tables, the processor
      translates every virtual address alike after either. */
  lemma PromotionRefinesPlainLoop(s: Mem, virt: nat, phys: nat, size: nat, flags: nat)
    requires PagerOk(s) && RangeOk(s, virt, phys, size, flags)
    requires SlotsFree(s, virt, 0, PageCount(size))
    requires !MapRange(s, virt, phys, size, flags, 0).failed && !MapPages(s, virt, phys, size, flags, 0).failed
    ensures var fast, plain := MapRange(s, virt, phys, size, flags, 0), MapPages(s, virt, phys, size, flags, 0);
            && (forall w :: Walk(fast.pages, fast.root, w) == Walk(plain.pages, plain.root, w))
            && (forall a: nat :: Translate(fast.pages, fast.root, a) == Translate(plain.pages, plain.root, a))
  {
    hide MapRange, MapPages, TreeWalk, Walk, Offset, VPageOf, Attrs, SlotsFree, NewSlotsInside, TreeOk, LedgerOk;
    MapRangeFrom(s, virt, phys, size, flags, 0);
    MapPagesFrom(s, virt, phys, size, flags, 0);
    var fast, plain := MapRange(s, virt, phys, size, flags, 0), MapPages(s, virt, phys, size, flags, 0);
    forall w
      ensures Walk(fast.pages, fast.root, w) == Walk(plain.pages, plain.root, w)
    {
      WalkFollowsTree(fast.pages, fast.root, w);
      WalkFollowsTree(plain.pages, plain.root, w);
    }
  }

  /** pager_map seen by the processor: the page asked for, or the 512 pages of the slot asked for, with the
      attributes asked for, and no other page, whatever tables had to be created. */
  lemma MapIsPointUpdate(s: Mem, virt: nat, phys: nat, flags: nat, huge: bool)
    requires PagerOk(s) && phys < Pow2(s.physBits) && !Huge(flags)
    requires huge || !HugeSlot(s.pages, s.root, VPageOf(virt))
    requires !MapPage(s, virt, phys, if huge then OrHuge(flags) else flags).failed
    ensures var s', v := MapPage(s, virt, phys, if huge then OrHuge(flags) else flags), VPageOf(virt);
            forall w ::
              var leaf := Walk(s'.pages, s'.root, w);
              if huge && w.i4 == v.i4 && w.i3 == v.i3 && w.i2 == v.i2
              then leaf.Some? && leaf.value.frame == phys / 0x20_0000 * 512 + w.i1 && AsAsked(leaf.value.attrs, flags)
              else if !huge && w == v
              then leaf.Some? && leaf.value.frame == phys / 0x1000 && AsAsked(leaf.value.attrs, flags)
              else leaf == Walk(s.pages, s.root, w)
  {
    hide MapPage, Walk, TreeWalk, HugeSlot, VPageOf, Attrs, Pow2, LedgerOk, HeadersOk, TreeOk, AsAsked;
    AttrsExact(flags);
    if huge {
      MapHuge(s, virt, phys, flags);
    } else {
      MapSmall(s, virt, phys, flags);
    }
    var s' := MapPage(s, virt, phys, if huge then OrHuge(flags) else flags);
    forall w
      ensures Walk(s'.pages, s'.root, w) == TreeWalk(s'.pages, s'.root, w)
      ensures Walk(s.pages, s.root, w) == TreeWalk(s.pages, s.root, w)
    {
      WalkFollowsTree(s.pages, s.root, w);
      WalkFollowsTree(s'.pages, s'.root, w);
    }
  }

  /** An address beyond the processor's physical space is not mapped, and no table is created for it. */
  lemma BeyondLimitIgnored(s: Mem, virt: nat, phys: nat, flags: nat)
    requires phys >= Pow2(s.physBits)
    ensures MapPage(s, virt, phys, flags) == s
  {
  }

  /** The first frame of the slot of v, if the slot is mapped whole, holds a table above the PTs. */
  ghost predicate HitsUpperTable(s: Mem, v: VPage) {
    HugeSlot(s.pages, s.root, v)
    && exists q: Node :: q.Depth() < 3 && TableAt(s.pages, s.root, q) == Some(SlotFrame(s.pages, s.root, v))
  }

  /** A 4 KiB mapping takes effect exactly when its slot is not mapped whole. Else it is written as entry
      i1 of the slot's first frame, and changes no translation if that frame holds no table. */
  lemma SmallMapExact(s: Mem, virt: nat, phys: nat, flags: nat)
    requires PagerOk(s) && phys < Pow2(s.physBits) && !Huge(flags)
    requires !MapPage(s, virt, phys, flags).failed
    ensures var s', v := MapPage(s, virt, phys, flags), VPageOf(virt);
            var leaf := Leaf(phys / PAGE_SIZE, Attrs(flags));
            && (TreeWalk(s.pages, s.root, v) != Some(leaf) && !HitsUpperTable(s, v) ==>
                  (TreeWalk(s'.pages, s'.root, v) == Some(leaf) <==> !HugeSlot(s.pages, s.root, v)))
            && (HugeSlot(s.pages, s.root, v) ==>
                  var frame := SlotFrame(s.pages, s.root, v);
                  && s' == s.(pages := Store(s.pages, frame, v.i1, SmallEntry(phys, flags)))
                  && (!IsTable(s.pages, s.root, frame) ==>
                        forall w :: TreeWalk(s'.pages, s'.root, w) == TreeWalk(s.pages, s.root, w)))
  {
    hide MapPage, Pow2, VPageOf, SlotFrame, Store, BooksOk, TreeOk, TreeWalk, HugeSlot, Attrs;
    var v := VPageOf(virt);
    if !HugeSlot(s.pages, s.root, v) {
      MapSmall(s, virt, phys, flags);
    } else {
      LostEntry(s, virt, phys, flags);
      var frame := SlotFrame(s.pages, s.root, v);
      if !IsTable(s.pages, s.root, frame) {
        LostWrite(s, virt, phys, flags);
      } else if !HitsUpperTable(s, v) {
        var q :| TableAt(s.pages, s.root, q) == Some(frame);
        NoDeeperTable(s.pages, s.root, q);
        LostIntoPt(s, virt, phys, flags, q);
        WholeSlotWalk(s.pages, s.root, v);
      }
    }
  }

  lemma {:induction false} NoDeeperTable(m: Memory, root: nat, q: Node)
    requires TableAt(m, root, q).Some?
    ensures q.Depth() <= 3
  {
  }

  /** Where the lost entry hits a PT, it maps the page at its index there in place of the one asked for. */
  lemma LostIntoPt(s: Mem, virt: nat, phys: nat, flags: nat, q: Node)
    requires PagerOk(s) && phys < Pow2(s.physBits) && !Huge(flags)
    requires HugeSlot(s.pages, s.root, VPageOf(virt)) && q.Depth() == 3
    requires TableAt(s.pages, s.root, q) == Some(SlotFrame(s.pages, s.root, VPageOf(virt)))
    ensures var s' := MapPage(s, virt, phys, flags);
            && PagerOk(s')
            && forall w :: HugeSlot(s'.pages, s'.root, w) == HugeSlot(s.pages, s.root, w)
                           && TreeWalk(s'.pages, s'.root, w)
                              == if PtNode(w) == q && w.i1 == VPageOf(virt).i1
                                 then Some(Leaf(phys / PAGE_SIZE, Attrs(flags))) else TreeWalk(s.pages, s.root, w)
  {
    hide MapPage, VPageOf, SlotFrame, Store, LedgerOk, HeadersOk, TreeOk, TreeWalk, HugeSlot, Attrs, SmallEntry;
    hide TableAt, SmallLeaf, Pow2;
    LostEntry(s, virt, phys, flags);
    PhysFits(s.physBits, phys);
    SmallEntryMaps(phys, flags);
    var e := SmallEntry(phys, flags);
    var u := PageOfPt(q, VPageOf(virt).i1);
    SmallLeafTables(s.pages, s.root, u, e);
    forall w
      ensures var m' := Store(s.pages, TableAt(s.pages, s.root, q).value, u.i1, e);
              && HugeSlot(m', s.root, w) == HugeSlot(s.pages, s.root, w)
              && TreeWalk(m', s.root, w)
                 == if w == u then Some(Leaf(phys / PAGE_SIZE, Attrs(flags))) else TreeWalk(s.pages, s.root, w)
    {
      SmallLeafWalk(s.pages, s.root, u, e, w);
    }
  }

  /** The page that entry i of the PT at q maps. */
  lemma PageOfPt(q: Node, i: Index) returns (u: VPage)
    requires q.Depth() == 3
    ensures u.i1 == i && PtNode(u) == q && forall w :: w == u <==> PtNode(w) == q && w.i1 == i
  {
    assert q.up.Depth() == 2;
    assert q.up.up.Depth() == 1;
    assert q.up.up.up.Depth() == 0;
    u := VPage(q.up.up.idx, q.up.idx, q.idx, i);
  }

  /** Where the lost entry hits a table above the PTs, the frame to be mapped becomes a table. So the
      tables stay tables the pager took exactly if the entry hit a PT. */
  lemma LostIntoTable(s: Mem, virt: nat, phys: nat, flags: nat, q: Node)
    requires PagerOk(s) && phys < Pow2(s.physBits) && !Huge(flags)
    requires HugeSlot(s.pages, s.root, VPageOf(virt))
    requires TableAt(s.pages, s.root, q) == Some(SlotFrame(s.pages, s.root, VPageOf(virt)))
    ensures var s' := MapPage(s, virt, phys, flags);
            && (q.Depth() < 3 ==>
                  TableAt(s'.pages, s'.root, Child(q, VPageOf(virt).i1)) == Some(phys / PAGE_SIZE))
            && (Run(phys / PAGE_SIZE, 1, PageTable) !in s.runs ==>
                  (TablesOk(s'.pages, s'.root, s'.runs) <==> q.Depth() == 3))
  {
    hide MapPage, VPageOf, SlotFrame, Store, LedgerOk, HeadersOk, TreeOk, TreeWalk, HugeSlot, Attrs;
    NoDeeperTable(s.pages, s.root, q);
    if q.Depth() == 3 {
      LostIntoPt(s, virt, phys, flags, q);
    } else {
      LostEntry(s, virt, phys, flags);
      SmallEntryFields(phys, flags);
      OverwrittenTable(s.pages, s.root, q, VPageOf(virt).i1, SmallEntry(phys, flags));
    }
  }

  /** Descending to a PD that is there allocates nothing. */
  lemma PdIsReached(s: Mem, v: VPage)
    requires TableAt(s.pages, s.root, PdNode(v)).Some?
    ensures var (s1, pdpt) := Descend(s, s.root, v.i4);
            var (s2, pd) := Descend(s1, pdpt, v.i3);
            s2 == s && TableAt(s.pages, s.root, PdNode(v)) == Some(pd)
            && TableAt(s.pages, s.root, PdptNode(v)) == Some(pdpt)
  {
    assert TableAt(s.pages, s.root, Root) == Some(s.root);
    assert TableAt(s.pages, s.root, PdptNode(v)).Some?;
  }
}
