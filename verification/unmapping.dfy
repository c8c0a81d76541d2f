/** pager_unmap against pager_map. */
module Unmapping {
  import opened Words
  import opened Physical
  import opened Regions
  import opened Paging
  import opened Addresses
  import opened MemoryState
  import opened Mapping
  import opened RangeMapping

  lemma ClearPresentBits(e: nat)
    ensures forall k: nat :: k >= 1 ==> (Bit(ClearPresent(e), k) <==> Bit(e, k))
    ensures !Present(ClearPresent(e)) && (!Present(e) ==> ClearPresent(e) == e)
  {
    assert ClearPresent(e) / 2 == e / 2;
  }

  /** pager_unmap changes at most one entry, and of that entry at most bit 0, which it clears; it changes nothing
      while no table is loaded. */
  lemma UnmapClearsOneBit(s: Mem, virt: nat)
    ensures var s' := Unmap(s, virt);
            && s' == s.(pages := s'.pages) && (s.loaded.None? ==> s' == s)
            && (forall p: nat, i: Index, k: nat :: k >= 1 ==>
                  (Bit(Entry(s'.pages, p, i), k) <==> Bit(Entry(s.pages, p, i), k)))
            && (forall p: nat, i: Index :: Present(Entry(s'.pages, p, i)) ==> Present(Entry(s.pages, p, i)))
            && (forall p: nat, i: Index, q: nat, j: Index ::
                  Entry(s'.pages, p, i) != Entry(s.pages, p, i) && Entry(s'.pages, q, j) != Entry(s.pages, q, j) ==>
                    p == q && i == j)
  {
    hide Bit, Present, Entry, Frame, VPageOf, Huge;
    forall e: nat
      ensures forall k: nat :: k >= 1 ==> (Bit(ClearPresent(e), k) <==> Bit(e, k))
      ensures !Present(ClearPresent(e))
    {
      ClearPresentBits(e);
    }
    hide ClearPresent;
  }

  /** The pages one pager_unmap removes: the slot if it is mapped whole, else the page. */
  ghost predicate Unmaps(s: Mem, virt: nat, w: VPage) {
    var v := VPageOf(virt);
    if HugeSlot(s.pages, s.root, v) then PtNode(w) == PtNode(v) else w == v
  }

  lemma UnmapWalksTree(s: Mem, v: VPage)
    requires TreeOk(s.pages, s.root)
    ensures var e4 := Entry(s.pages, s.root, v.i4);
            if !Present(e4) then TableAt(s.pages, s.root, PdptNode(v)).None?
            else
              && TableAt(s.pages, s.root, PdptNode(v)) == Some(Frame(e4))
              && var e3 := Entry(s.pages, Frame(e4), v.i3);
                 if !Present(e3) then TableAt(s.pages, s.root, PdNode(v)).None?
                 else TableAt(s.pages, s.root, PdNode(v)) == Some(Frame(e3))
  {
    assert TableAt(s.pages, s.root, Root) == Some(s.root);
    TreeLevel(s.pages, s.root, Root, v.i4);
    if TableAt(s.pages, s.root, PdptNode(v)).Some? {
      TreeLevel(s.pages, s.root, PdptNode(v), v.i3);
    }
  }

  /** The memory after pager_unmap, by what the tree holds for the page. */
  lemma UnmapCases(s: Mem, virt: nat)
    requires TreeOk(s.pages, s.root) && s.loaded == Some(s.root)
    ensures var v := VPageOf(virt);
            var pd, pt := TableAt(s.pages, s.root, PdNode(v)), TableAt(s.pages, s.root, PtNode(v));
            Unmap(s, virt) == s.(pages :=
              if pd.None? then s.pages
              else if Huge(Entry(s.pages, pd.value, v.i2))
              then Store(s.pages, pd.value, v.i2, ClearPresent(Entry(s.pages, pd.value, v.i2)))
              else if pt.None? then s.pages
              else Store(s.pages, pt.value, v.i1, ClearPresent(Entry(s.pages, pt.value, v.i1))))
  {
    var v := VPageOf(virt);
    UnmapWalksTree(s, v);
    if TableAt(s.pages, s.root, PdptNode(v)).None? {
      NoTableNoChild(s.pages, s.root, PdptNode(v), v.i3);
    } else if TableAt(s.pages, s.root, PdNode(v)).Some? {
      TreeLevel(s.pages, s.root, PdNode(v), v.i2);
    }
    hide TreeOk, TableAt;
  }

  lemma ClearedOk(e: nat)
    requires e < ENTRY_LIMIT
    ensures ClearPresent(e) < ENTRY_LIMIT && !Present(ClearPresent(e)) && EntryOk(ClearPresent(e), 2)
  {
  }

  lemma EntryBound(s: Mem, p: Node, i: Index)
    requires TreeOk(s.pages, s.root) && TableAt(s.pages, s.root, p).Some?
    ensures Entry(s.pages, TableAt(s.pages, s.root, p).value, i) < ENTRY_LIMIT
  {
    assert EntryOk(Entry(s.pages, TableAt(s.pages, s.root, p).value, i), p.Depth());
  }

  /** pager_unmap, seen from one page. */
  lemma UnmapWalk(s: Mem, virt: nat, w: VPage)
    requires TreeOk(s.pages, s.root) && s.loaded == Some(s.root)
    ensures var s' := Unmap(s, virt);
            && TreeWalk(s'.pages, s'.root, w) == (if Unmaps(s, virt, w) then None else TreeWalk(s.pages, s.root, w))
            && HugeSlot(s'.pages, s'.root, w)
               == (HugeSlot(s.pages, s.root, w) && PtNode(w) != PtNode(VPageOf(virt)))
  {
    hide Unmap, VPageOf, TreeOk, DropHuge, EntryOk, ClearPresent, SmallLeaf, HugeLeaf;
    var v := VPageOf(virt);
    UnmapCases(s, virt);
    var pd, pt := TableAt(s.pages, s.root, PdNode(v)), TableAt(s.pages, s.root, PtNode(v));
    if pd.None? {
      if PtNode(w) == PtNode(v) {
        NoTableNoChild(s.pages, s.root, PdNode(w), w.i2);
      }
    } else {
      TreeLevel(s.pages, s.root, PdNode(v), v.i2);
      var e2 := Entry(s.pages, pd.value, v.i2);
      if Huge(e2) {
        EntryBound(s, PdNode(v), v.i2);
        ClearedOk(e2);
        SlotWalk(s.pages, s.root, v, ClearPresent(e2), w);
      } else if pt.Some? {
        EntryBound(s, PtNode(v), v.i1);
        ClearedOk(Entry(s.pages, pt.value, v.i1));
        SmallLeafWalk(s.pages, s.root, v, ClearPresent(Entry(s.pages, pt.value, v.i1)), w);
      }
    }
  }

  lemma UnmapTables(s: Mem, virt: nat)
    requires TablesOk(s.pages, s.root, s.runs) && s.loaded == Some(s.root)
    ensures var s' := Unmap(s, virt); TablesOk(s'.pages, s'.root, s'.runs) && s' == s.(pages := s'.pages)
  {
    hide Unmap, VPageOf;
    var v := VPageOf(virt);
    UnmapCases(s, virt);
    var pd, pt := TableAt(s.pages, s.root, PdNode(v)), TableAt(s.pages, s.root, PtNode(v));
    if pd.Some? && Huge(Entry(s.pages, pd.value, v.i2)) {
      var e2 := Entry(s.pages, pd.value, v.i2);
      assert EntryOk(e2, 2);
      SlotTables(s.pages, s.root, v, ClearPresent(e2));
    } else if pd.Some? && pt.Some? {
      var e1 := Entry(s.pages, pt.value, v.i1);
      assert EntryOk(e1, 3);
      SmallLeafTables(s.pages, s.root, v, ClearPresent(e1));
    }
  }

  /** pager_unmap removes exactly the page, or exactly the 2 MiB slot that maps it. */
  lemma UnmapExact(s: Mem, virt: nat)
    requires PagerOk(s) && s.loaded == Some(s.root)
    ensures var s' := Unmap(s, virt);
            && PagerOk(s') && s' == s.(pages := s'.pages)
            && (forall w :: TreeWalk(s'.pages, s'.root, w)
                            == if Unmaps(s, virt, w) then None else TreeWalk(s.pages, s.root, w))
            && (forall w :: HugeSlot(s'.pages, s'.root, w)
                            == (HugeSlot(s.pages, s.root, w) && PtNode(w) != PtNode(VPageOf(virt))))
  {
    UnmapTables(s, virt);
    hide Unmap, LedgerOk, HeadersOk, VPageOf, TreeWalk, HugeSlot, Unmaps;
    var s' := Unmap(s, virt);
    forall w
      ensures TreeWalk(s'.pages, s'.root, w) == (if Unmaps(s, virt, w) then None else TreeWalk(s.pages, s.root, w))
      ensures HugeSlot(s'.pages, s'.root, w)
              == (HugeSlot(s.pages, s.root, w) && PtNode(w) != PtNode(VPageOf(virt)))
    {
      UnmapWalk(s, virt, w);
    }
  }

  /** Mapping an unmapped 4 KiB page and unmapping it again restores the whole translation. */
  lemma UnmapUndoesMap(s: Mem, virt: nat, phys: nat, flags: nat)
    requires PagerOk(s) && s.loaded == Some(s.root) && phys < Pow2(s.physBits) && !Huge(flags)
    requires Walk(s.pages, s.root, VPageOf(virt)).None?
    requires !MapPage(s, virt, phys, flags).failed
    ensures var s' := Unmap(MapPage(s, virt, phys, flags), virt);
            PagerOk(s') && forall w :: Walk(s'.pages, s'.root, w) == Walk(s.pages, s.root, w)
  {
    hide MapPage, Unmap;
    WalkFollowsTree(s.pages, s.root, VPageOf(virt));
    assert !HugeSlot(s.pages, s.root, VPageOf(virt));
    MapSmall(s, virt, phys, flags);
    var s1 := MapPage(s, virt, phys, flags);
    UnmapExact(s1, virt);
    var s' := Unmap(s1, virt);
    forall w
      ensures Walk(s'.pages, s'.root, w) == Walk(s.pages, s.root, w)
    {
      WalkFollowsTree(s.pages, s.root, w);
      WalkFollowsTree(s'.pages, s'.root, w);
    }
  }

  /** A 4 KiB mapping into a slot whose 2 MiB mapping was removed gets a table of its own, from a page
      that was free. */
  lemma RemapGetsFreshTable(s: Mem, virt: nat, phys: nat, flags: nat)
    requires PagerOk(s) && s.loaded == Some(s.root) && phys < Pow2(s.physBits) && !Huge(flags)
    requires HugeSlot(s.pages, s.root, VPageOf(virt))
    requires !MapPage(Unmap(s, virt), virt, phys, flags).failed
    ensures var s1 := Unmap(s, virt);
            var s2 := MapPage(s1, virt, phys, flags);
            var pt := TableAt(s2.pages, s2.root, PtNode(VPageOf(virt)));
            && pt.Some? && pt.value !in s.phys.used
            && forall w :: TreeWalk(s2.pages, s2.root, w)
                           == if w == VPageOf(virt) then Some(Leaf(phys / PAGE_SIZE, Attrs(flags)))
                              else if PtNode(w) == PtNode(VPageOf(virt)) then None
                              else TreeWalk(s.pages, s.root, w)
  {
    hide MapPage, Unmap, LedgerOk, HeadersOk, Attrs, Pow2, VPageOf;
    var v := VPageOf(virt);
    var s1 := Unmap(s, virt);
    UnmapCases(s, virt);
    UnmapExact(s, virt);
    var pd := TableAt(s.pages, s.root, PdNode(v));
    var e := ClearPresent(Entry(s.pages, pd.value, v.i2));
    assert EntryOk(Entry(s.pages, pd.value, v.i2), 2);
    CutAt(s.pages, s.root, PdNode(v), v.i2, e, PdNode(v));
    if Under(PdNode(v), PtNode(v)) {
      UnderIsDeeper(PdNode(v), PtNode(v));
    }
    assert TableAt(s1.pages, s1.root, PdNode(v)) == pd;
    assert Entry(s1.pages, pd.value, v.i2) == e && !Present(e);
    PdIsReached(s1, v);
    MapSmall(s1, virt, phys, flags);
    FreshPt(s1, virt, phys, flags);
  }

  lemma FreshPt(s: Mem, virt: nat, phys: nat, flags: nat)
    requires PagerOk(s) && phys < Pow2(s.physBits) && !Huge(flags)
    requires var v := VPageOf(virt);
             && TableAt(s.pages, s.root, PdNode(v)).Some?
             && !Present(Entry(s.pages, TableAt(s.pages, s.root, PdNode(v)).value, v.i2))
    requires !MapPage(s, virt, phys, flags).failed
    ensures var s' := MapPage(s, virt, phys, flags);
            var pt := TableAt(s'.pages, s'.root, PtNode(VPageOf(virt)));
            pt.Some? && pt.value !in s.phys.used
  {
    var v := VPageOf(virt);
    PdIsReached(s, v);
    var pd := TableAt(s.pages, s.root, PdNode(v)).value;
    DescendOk(s, PdNode(v), v.i2);
    var (s3, n) := Descend(s, pd, v.i2);
    PhysFits(s.physBits, phys);
    SmallEntryMaps(phys, flags);
    SmallLeafTables(s3.pages, s3.root, v, SmallEntry(phys, flags));
    AlignOnePage();
    AllocPhysFirstFit(s.phys, PAGE_SIZE);
    hide LedgerOk, HeadersOk, TablesOk, VPageOf, Align4k;
  }
}
