/** Page tables in physical memory and the hardware walk over them
    (4-level paging, Intel SDM Volume 3A, section 4.5). */
module Paging {
  import opened Words

  const TABLE_ENTRIES: nat := 512
  const LINK_FLAGS: nat := 3            // PAGE_PRESENT | PAGE_RW
  const HUGE_FLAG: nat := 128           // bit 7
  const ENTRY_LIMIT: nat := 0x10_0000_0000_0000
  const FRAME_LIMIT: nat := 0x100_0000_0000

  type Index = i: nat | i < TABLE_ENTRIES

  /** Physical memory as pages of 512 words, keyed by page number; a page never written reads as zero. */
  type Memory = map<nat, seq<nat>>

  function PageWords(m: Memory, page: nat): (r: seq<nat>)
    ensures |r| == TABLE_ENTRIES
  {
    if page in m && |m[page]| == TABLE_ENTRIES then m[page] else seq(TABLE_ENTRIES, _ => 0)
  }

  function Entry(m: Memory, page: nat, i: Index): nat {
    PageWords(m, page)[i]
  }

  function Store(m: Memory, page: nat, i: Index, e: nat): (r: Memory)
    ensures forall q: nat, j: Index :: Entry(r, q, j) == if q == page && j == i then e else Entry(m, q, j)
  {
    m[page := PageWords(m, page)[i := e]]
  }

  function ZeroPage(m: Memory, page: nat): (r: Memory)
    ensures forall q: nat, j: Index :: Entry(r, q, j) == if q == page then 0 else Entry(m, q, j)
  {
    m[page := seq(TABLE_ENTRIES, _ => 0)]
  }

  predicate Present(e: nat) { e % 2 == 1 }

  predicate Huge(e: nat) { e / HUGE_FLAG % 2 == 1 }

  lemma BitSeven(e: nat)
    ensures Huge(e) <==> Bit(e, 7)
  {
    assert Bit(e, 7) <==> Bit(e / 16, 3);
    assert e / HUGE_FLAG == e / 16 / 8;
  }

  function Frame(e: nat): nat { e / PAGE_SIZE }

  /** A virtual page by its four table indices. */
  datatype VPage = VPage(i4: Index, i3: Index, i2: Index, i1: Index)

  /** What a walk ends in: a page frame and the low twelve bits of the entry that maps it,
      without the page-size bit. */
  datatype Leaf = Leaf(frame: nat, attrs: nat)

  function SmallLeaf(e: nat): Leaf {
    Leaf(e / PAGE_SIZE % FRAME_LIMIT, e % PAGE_SIZE)
  }

  function DropHuge(low: nat): nat { if Huge(low) then low - HUGE_FLAG else low }

  function HugeLeaf(e: nat, i1: Index): Leaf {
    Leaf(e / 0x20_0000 % 0x8000_0000 * 512 + i1, DropHuge(e % PAGE_SIZE))
  }

  function GiantLeaf(e: nat, i2: Index, i1: Index): Leaf {
    Leaf(e / 0x4000_0000 % 0x40_0000 * 0x4_0000 + i2 * 512 + i1, DropHuge(e % PAGE_SIZE))
  }

  /** The walk of the processor: bits 51:12 of an entry name the next table, bit 7 of a PDPT or PD
      entry ends the walk early. */
  function Walk(m: Memory, cr3: nat, v: VPage): Option<Leaf> {
    var e4 := Entry(m, cr3, v.i4);
    if !Present(e4) then None else
    var e3 := Entry(m, Frame(e4) % FRAME_LIMIT, v.i3);
    if !Present(e3) then None else
    if Huge(e3) then Some(GiantLeaf(e3, v.i2, v.i1)) else
    var e2 := Entry(m, Frame(e3) % FRAME_LIMIT, v.i2);
    if !Present(e2) then None else
    if Huge(e2) then Some(HugeLeaf(e2, v.i1)) else
    var e1 := Entry(m, Frame(e2) % FRAME_LIMIT, v.i1);
    if !Present(e1) then None else Some(SmallLeaf(e1))
  }

  /** Every entry of the walk has bit k. The processor lets a write through where all have bit 1, and an access
      from user mode where all have bit 2 (section 4.6). */
  predicate EveryEntryHas(m: Memory, cr3: nat, v: VPage, k: nat) {
    var e4 := Entry(m, cr3, v.i4);
    var e3 := Entry(m, Frame(e4) % FRAME_LIMIT, v.i3);
    var e2 := Entry(m, Frame(e3) % FRAME_LIMIT, v.i2);
    var e1 := Entry(m, Frame(e2) % FRAME_LIMIT, v.i1);
    Bit(e4, k) && Bit(e3, k) && (Huge(e3) || (Bit(e2, k) && (Huge(e2) || Bit(e1, k))))
  }

  /** A position in the table tree: the root, or the table under entry idx of another. */
  datatype Node = Root | Child(up: Node, idx: Index) {
    function Depth(): nat {
      if Root? then 0 else up.Depth() + 1
    }
  }

  predicate Under(q: Node, p: Node) {
    q == p || (q.Child? && Under(q.up, p))
  }

  function PdptNode(v: VPage): (r: Node)
    ensures r.Depth() == 1
  {
    Child(Root, v.i4)
  }

  function PdNode(v: VPage): (r: Node)
    ensures r.Depth() == 2
  {
    Child(PdptNode(v), v.i3)
  }

  function PtNode(v: VPage): (r: Node)
    ensures r.Depth() == 3
  {
    Child(PdNode(v), v.i2)
  }

  /** The page that holds the table at a position, if there is a table. */
  function TableAt(m: Memory, root: nat, p: Node): Option<nat> {
    match p
    case Root => Some(root)
    case Child(up, i) =>
      match TableAt(m, root, up)
      case None => None
      case Some(t) =>
        var e := Entry(m, t, i);
        if up.Depth() < 3 && Present(e) && !Huge(e) then Some(Frame(e)) else None
  }

  /** An entry the pager may hold at a depth: only table frames above the PD, a frame for a whole slot that
      starts at a multiple of 512, and bits 0 and 1 alone besides the frame where a table is named. */
  predicate EntryOk(e: nat, depth: nat) {
    && e < ENTRY_LIMIT
    && (depth < 3 && Present(e) && !Huge(e) ==> e % PAGE_SIZE == 3)
    && (depth < 2 && Present(e) ==> !Huge(e))
    && (depth == 2 && Present(e) && Huge(e) ==> Frame(e) % 512 == 0)
  }

  /** The tables form a tree: no page is the table of two positions. */
  ghost predicate TreeOk(m: Memory, root: nat) {
    && (forall p, q :: TableAt(m, root, p).Some? && TableAt(m, root, p) == TableAt(m, root, q) ==> p == q)
    && (forall p, i: Index :: TableAt(m, root, p).Some? ==>
                                EntryOk(Entry(m, TableAt(m, root, p).value, i), p.Depth()))
  }

  ghost predicate IsTable(m: Memory, root: nat, t: nat) {
    exists p :: TableAt(m, root, p) == Some(t)
  }

  /** The PD entry of a page's 2 MiB slot maps the slot directly. */
  ghost predicate HugeSlot(m: Memory, root: nat, v: VPage) {
    var pd := TableAt(m, root, PdNode(v));
    pd.Some? && Present(Entry(m, pd.value, v.i2)) && Huge(Entry(m, pd.value, v.i2))
  }

  /** The first frame of a slot mapped whole. */
  ghost function SlotFrame(m: Memory, root: nat, v: VPage): nat
    requires HugeSlot(m, root, v)
  {
    Frame(Entry(m, TableAt(m, root, PdNode(v)).value, v.i2))
  }

  /** The walk in terms of the tree. */
  ghost function TreeWalk(m: Memory, root: nat, v: VPage): Option<Leaf> {
    match TableAt(m, root, PtNode(v))
    case Some(pt) =>
      var e := Entry(m, pt, v.i1);
      if Present(e) then Some(SmallLeaf(e)) else None
    case None =>
      if HugeSlot(m, root, v)
      then Some(HugeLeaf(Entry(m, TableAt(m, root, PdNode(v)).value, v.i2), v.i1))
      else None
  }

  lemma TreeLevel(m: Memory, root: nat, p: Node, i: Index)
    requires TreeOk(m, root) && TableAt(m, root, p).Some?
    ensures var e := Entry(m, TableAt(m, root, p).value, i);
            && Frame(e) % FRAME_LIMIT == Frame(e)
            && (p.Depth() < 2 && Present(e) ==> !Huge(e))
            && TableAt(m, root, Child(p, i))
               == if p.Depth() < 3 && Present(e) && !Huge(e) then Some(Frame(e)) else None
  {
    assert EntryOk(Entry(m, TableAt(m, root, p).value, i), p.Depth());
  }

  lemma NoTableNoChild(m: Memory, root: nat, p: Node, i: Index)
    requires TableAt(m, root, p).None?
    ensures TableAt(m, root, Child(p, i)).None?
  {
  }

  /** In a tree of tables the processor's walk is the walk along the tree. */
  lemma WalkFollowsTree(m: Memory, root: nat, v: VPage)
    requires TreeOk(m, root)
    ensures Walk(m, root, v) == TreeWalk(m, root, v)
  {
    assert TableAt(m, root, Root) == Some(root);
    TreeLevel(m, root, Root, v.i4);
    if TableAt(m, root, PdptNode(v)).None? {
      NoTableNoChild(m, root, PdptNode(v), v.i3);
      NoTableNoChild(m, root, PdNode(v), v.i2);
    } else {
      TreeLevel(m, root, PdptNode(v), v.i3);
      if TableAt(m, root, PdNode(v)).None? {
        NoTableNoChild(m, root, PdNode(v), v.i2);
      } else {
        TreeLevel(m, root, PdNode(v), v.i2);
      }
    }
    hide TreeOk, TableAt, Present, Huge, Frame, Entry;
  }

  lemma LinkBits(e: nat)
    requires e % PAGE_SIZE == 3
    ensures Bit(e, 1) && !Bit(e, 2)
  {
    assert Bit(e, 1) <==> e / 2 % 2 == 1;
    assert Bit(e, 2) <==> e / 2 / 2 % 2 == 1;
  }

  lemma LeafBits(e: nat, i1: Index)
    ensures Bit(SmallLeaf(e).attrs, 1) <==> Bit(e, 1)
    ensures Bit(HugeLeaf(e, i1).attrs, 1) <==> Bit(e, 1)
  {
    assert Pow2(12) == PAGE_SIZE;
    LowBits(e, 12, 1);
    var low := e % PAGE_SIZE;
    if Huge(low) {
      assert (low - HUGE_FLAG) / 2 == low / 2 - 64;
    }
  }

  /** What the tables allow: a mapped page can be written exactly if the entry that maps it says so, and no
      page is reached from user mode, whatever that entry says: the entries above do not allow it. */
  lemma RightsFollowLeaf(m: Memory, root: nat, v: VPage)
    requires TreeOk(m, root) && Walk(m, root, v).Some?
    ensures EveryEntryHas(m, root, v, 1) <==> Bit(Walk(m, root, v).value.attrs, 1)
    ensures !EveryEntryHas(m, root, v, 2)
  {
    assert TableAt(m, root, Root) == Some(root);
    TreeLevel(m, root, Root, v.i4);
    TreeLevel(m, root, PdptNode(v), v.i3);
    TreeLevel(m, root, PdNode(v), v.i2);
    var e4 := Entry(m, root, v.i4);
    var e3 := Entry(m, Frame(e4), v.i3);
    var e2 := Entry(m, Frame(e3), v.i2);
    assert EntryOk(e4, 0) && EntryOk(e3, 1) && EntryOk(e2, 2);
    LinkBits(e4);
    LinkBits(e3);
    LeafBits(e2, v.i1);
    if !Huge(e2) {
      LinkBits(e2);
      LeafBits(Entry(m, Frame(e2), v.i1), v.i1);
    }
    hide TreeOk, TableAt, Huge, Present, Frame, Entry, Bit, SmallLeaf, HugeLeaf;
  }

  /** Writing an entry that names no table at (p, i) cuts the subtree there and nothing else. */
  lemma {:induction false} CutAt(m: Memory, root: nat, p: Node, i: Index, e: nat, q: Node)
    requires TreeOk(m, root) && TableAt(m, root, p).Some?
    requires p.Depth() >= 3 || !Present(e) || Huge(e)
    ensures TableAt(Store(m, TableAt(m, root, p).value, i, e), root, q)
            == if Under(q, Child(p, i)) then None else TableAt(m, root, q)
  {
    if q.Child? {
      CutAt(m, root, p, i, e, q.up);
    }
  }

  lemma {:induction false} UnderIsDeeper(q: Node, p: Node)
    requires Under(q, p)
    ensures q.Depth() >= p.Depth() && (q.Depth() == p.Depth() ==> q == p)
  {
    if q != p {
      UnderIsDeeper(q.up, p);
    }
  }

  /** A leaf entry in a PT moves no table. */
  lemma SmallLeafTables(m: Memory, root: nat, v: VPage, e: nat)
    requires TreeOk(m, root) && TableAt(m, root, PtNode(v)).Some? && e < ENTRY_LIMIT
    ensures var m' := Store(m, TableAt(m, root, PtNode(v)).value, v.i1, e);
            TreeOk(m', root) && forall q :: TableAt(m', root, q) == TableAt(m, root, q)
  {
    var p := PtNode(v);
    var m' := Store(m, TableAt(m, root, p).value, v.i1, e);
    forall q
      ensures TableAt(m', root, q) == TableAt(m, root, q)
    {
      CutAt(m, root, p, v.i1, e, q);
      if Under(q, Child(p, v.i1)) {
        UnderIsDeeper(q, Child(p, v.i1));
      }
    }
    forall q, j: Index | TableAt(m', root, q).Some?
      ensures EntryOk(Entry(m', TableAt(m', root, q).value, j), q.Depth())
    {
      assert EntryOk(Entry(m, TableAt(m, root, q).value, j), q.Depth());
      if TableAt(m, root, q) == TableAt(m, root, p) {
        assert q == p;
      }
    }
  }

  /** ... and changes the translation of one page. */
  lemma SmallLeafWalk(m: Memory, root: nat, v: VPage, e: nat, w: VPage)
    requires TreeOk(m, root) && TableAt(m, root, PtNode(v)).Some? && e < ENTRY_LIMIT
    ensures var m' := Store(m, TableAt(m, root, PtNode(v)).value, v.i1, e);
            && HugeSlot(m', root, w) == HugeSlot(m, root, w)
            && TreeWalk(m', root, w) == if w == v then (if Present(e) then Some(SmallLeaf(e)) else None)
                                        else TreeWalk(m, root, w)
  {
    SmallLeafTables(m, root, v, e);
    var pd, pt := TableAt(m, root, PdNode(w)), TableAt(m, root, PtNode(w));
    assert PdNode(w) != PtNode(v);
    assert pd.Some? ==> pd != TableAt(m, root, PtNode(v));
    assert pt.Some? && pt == TableAt(m, root, PtNode(v)) ==> PtNode(w) == PtNode(v);
  }

  /** A leaf or cleared entry in a PD removes the table of its slot, if there was one. */
  lemma SlotTables(m: Memory, root: nat, v: VPage, e: nat)
    requires TreeOk(m, root) && TableAt(m, root, PdNode(v)).Some? && EntryOk(e, 2)
    requires !Present(e) || Huge(e)
    ensures var m' := Store(m, TableAt(m, root, PdNode(v)).value, v.i2, e);
            && TreeOk(m', root)
            && forall q :: TableAt(m', root, q) == if Under(q, PtNode(v)) then None else TableAt(m, root, q)
  {
    var p := PdNode(v);
    var m' := Store(m, TableAt(m, root, p).value, v.i2, e);
    forall q
      ensures TableAt(m', root, q) == if Under(q, PtNode(v)) then None else TableAt(m, root, q)
    {
      CutAt(m, root, p, v.i2, e, q);
    }
    forall q, j: Index | TableAt(m', root, q).Some?
      ensures EntryOk(Entry(m', TableAt(m', root, q).value, j), q.Depth())
    {
      assert EntryOk(Entry(m, TableAt(m, root, q).value, j), q.Depth());
      if TableAt(m, root, q) == TableAt(m, root, p) {
        assert q == p;
      }
    }
  }

  /** ... and changes the translation of the 512 pages of the slot. */
  lemma SlotWalk(m: Memory, root: nat, v: VPage, e: nat, w: VPage)
    requires TreeOk(m, root) && TableAt(m, root, PdNode(v)).Some? && EntryOk(e, 2)
    requires !Present(e) || Huge(e)
    ensures var m' := Store(m, TableAt(m, root, PdNode(v)).value, v.i2, e);
            && HugeSlot(m', root, w) == (if PtNode(w) == PtNode(v) then Present(e) else HugeSlot(m, root, w))
            && TreeWalk(m', root, w)
               == if PtNode(w) == PtNode(v) then (if Present(e) then Some(HugeLeaf(e, w.i1)) else None)
                  else TreeWalk(m, root, w)
  {
    SlotTables(m, root, v, e);
    if Under(PdNode(w), PtNode(v)) {
      UnderIsDeeper(PdNode(w), PtNode(v));
    }
    if Under(PtNode(w), PtNode(v)) {
      UnderIsDeeper(PtNode(w), PtNode(v));
    }
    var pd, pt := TableAt(m, root, PdNode(w)), TableAt(m, root, PtNode(w));
    assert pd.Some? && pd == TableAt(m, root, PdNode(v)) ==> PdNode(w) == PdNode(v);
    assert PtNode(w) != PdNode(v);
    assert pt.Some? ==> pt != TableAt(m, root, PdNode(v));
  }

  /** Linking a zeroed page that is no table yet under an absent entry. */
  ghost function Attach(m: Memory, t: nat, i: Index, n: nat): Memory {
    Store(ZeroPage(m, n), t, i, n * PAGE_SIZE + LINK_FLAGS)
  }

  /** The entry that links a table, and the entries of a zeroed page. */
  lemma LinkEntry(n: nat)
    requires n < FRAME_LIMIT
    ensures var e := n * PAGE_SIZE + LINK_FLAGS;
            Present(e) && !Huge(e) && Frame(e) == n && forall depth: nat :: EntryOk(e, depth) && EntryOk(0, depth)
  {
    assert (n * PAGE_SIZE + LINK_FLAGS) / HUGE_FLAG == n * 32;
  }

  lemma {:induction false} AttachAt(m: Memory, root: nat, p: Node, i: Index, n: nat, q: Node)
    requires TreeOk(m, root) && TableAt(m, root, p).Some? && p.Depth() < 3 && n < FRAME_LIMIT
    requires !Present(Entry(m, TableAt(m, root, p).value, i)) && !IsTable(m, root, n)
    ensures TableAt(Attach(m, TableAt(m, root, p).value, i, n), root, q)
            == if q == Child(p, i) then Some(n) else TableAt(m, root, q)
  {
    hide Huge, Present, Frame, EntryOk;
    LinkEntry(n);
    if q.Child? {
      AttachAt(m, root, p, i, n, q.up);
      var t := TableAt(m, root, p).value;
      var u := TableAt(m, root, q.up);
      if q.up != Child(p, i) && u.Some? {
        assert u.value != n;
        assert u.value == t ==> q.up == p;
        assert Entry(Attach(m, t, i, n), u.value, q.idx)
            == if u.value == t && q.idx == i then n * PAGE_SIZE + LINK_FLAGS else Entry(m, u.value, q.idx);
      } else if q.up == Child(p, i) {
        NewTableIsEmpty(m, t, i, n, q.idx);
        assert TableAt(m, root, q).None?;
      }
    }
  }

  lemma NewTableIsEmpty(m: Memory, t: nat, i: Index, n: nat, j: Index)
    requires t != n
    ensures Entry(Attach(m, t, i, n), n, j) == 0 && !Present(Entry(Attach(m, t, i, n), n, j))
  {
  }

  /** A new table adds one position to the tree. */
  lemma AttachTables(m: Memory, root: nat, p: Node, i: Index, n: nat)
    requires TreeOk(m, root) && TableAt(m, root, p).Some? && p.Depth() < 3 && n < FRAME_LIMIT
    requires !Present(Entry(m, TableAt(m, root, p).value, i)) && !IsTable(m, root, n)
    ensures var m' := Attach(m, TableAt(m, root, p).value, i, n);
            && TreeOk(m', root)
            && forall q :: TableAt(m', root, q) == if q == Child(p, i) then Some(n) else TableAt(m, root, q)
  {
    hide Huge, Present, Frame, EntryOk, Attach;
    var t := TableAt(m, root, p).value;
    var m' := Attach(m, t, i, n);
    forall q
      ensures TableAt(m', root, q) == if q == Child(p, i) then Some(n) else TableAt(m, root, q)
    {
      AttachAt(m, root, p, i, n, q);
    }
    hide TableAt;
    LinkEntry(n);
    forall q, j: Index | TableAt(m', root, q).Some?
      ensures EntryOk(Entry(m', TableAt(m', root, q).value, j), q.Depth())
    {
      AttachEntries(m, t, i, n, TableAt(m', root, q).value, j);
      if q != Child(p, i) {
        assert EntryOk(Entry(m, TableAt(m, root, q).value, j), q.Depth());
      }
    }
  }

  lemma AttachEntries(m: Memory, t: nat, i: Index, n: nat, page: nat, j: Index)
    ensures Entry(Attach(m, t, i, n), page, j)
            == if page == t && j == i then n * PAGE_SIZE + LINK_FLAGS else if page == n then 0 else Entry(m, page, j)
  {
  }

  /** ... and changes no translation. */
  lemma AttachWalk(m: Memory, root: nat, p: Node, i: Index, n: nat, w: VPage)
    requires TreeOk(m, root) && TableAt(m, root, p).Some? && p.Depth() < 3 && n < FRAME_LIMIT
    requires !Present(Entry(m, TableAt(m, root, p).value, i)) && !IsTable(m, root, n)
    ensures var m' := Attach(m, TableAt(m, root, p).value, i, n);
            && HugeSlot(m', root, w) == HugeSlot(m, root, w)
            && TreeWalk(m', root, w) == TreeWalk(m, root, w)
  {
    AttachTables(m, root, p, i, n);
    var t := TableAt(m, root, p).value;
    var m' := Attach(m, t, i, n);
    var pd, pt := TableAt(m, root, PdNode(w)), TableAt(m, root, PtNode(w));
    if PdNode(w) == Child(p, i) {
      assert pd.None? && pt.None?;
      assert TableAt(m', root, PdNode(w)) == Some(n) && Entry(m', n, w.i2) == 0;
    } else if PtNode(w) == Child(p, i) {
      assert Entry(m', t, i) == n * PAGE_SIZE + LINK_FLAGS && !Huge(Entry(m', t, i));
      assert pt.None? && TableAt(m', root, PtNode(w)) == Some(n) && Entry(m', n, w.i1) == 0;
    } else {
      assert pt.Some? ==> pt.value != n && pt.value != t;
      if pd.Some? {
        assert pd.value != n;
        assert Entry(m', pd.value, w.i2) == Entry(m, pd.value, w.i2);
      }
    }
  }

  /** Writing to a page that holds no table moves no table and changes no translation. */
  lemma {:induction false} StoreOutside(m: Memory, root: nat, page: nat, i: Index, e: nat, q: Node)
    requires !IsTable(m, root, page)
    ensures TableAt(Store(m, page, i, e), root, q) == TableAt(m, root, q)
  {
    if q.Child? {
      StoreOutside(m, root, page, i, e, q.up);
    }
  }

  lemma StoreOutsideWalk(m: Memory, root: nat, page: nat, i: Index, e: nat, w: VPage)
    requires !IsTable(m, root, page)
    ensures TreeWalk(Store(m, page, i, e), root, w) == TreeWalk(m, root, w)
    ensures HugeSlot(Store(m, page, i, e), root, w) == HugeSlot(m, root, w)
  {
    StoreOutside(m, root, page, i, e, PdNode(w));
    StoreOutside(m, root, page, i, e, PtNode(w));
  }

  lemma StoreOutsideTables(m: Memory, root: nat, page: nat, i: Index, e: nat)
    requires TreeOk(m, root) && !IsTable(m, root, page)
    ensures var m' := Store(m, page, i, e);
            TreeOk(m', root) && forall q :: TableAt(m', root, q) == TableAt(m, root, q)
  {
    var m' := Store(m, page, i, e);
    forall q
      ensures TableAt(m', root, q) == TableAt(m, root, q)
    {
      StoreOutside(m, root, page, i, e, q);
    }
    forall q, j: Index | TableAt(m', root, q).Some?
      ensures EntryOk(Entry(m', TableAt(m', root, q).value, j), q.Depth())
    {
      assert EntryOk(Entry(m, TableAt(m, root, q).value, j), q.Depth());
    }
  }

  /** A slot mapped whole has no table, and its pages go to the frames from its first frame on. */
  lemma WholeSlotWalk(m: Memory, root: nat, v: VPage)
    requires TreeOk(m, root) && HugeSlot(m, root, v)
    ensures TableAt(m, root, PtNode(v)).None?
    ensures TreeWalk(m, root, v).Some? && TreeWalk(m, root, v).value.frame == SlotFrame(m, root, v) + v.i1
  {
    var pd := TableAt(m, root, PdNode(v)).value;
    var e := Entry(m, pd, v.i2);
    TreeLevel(m, root, PdNode(v), v.i2);
    assert EntryOk(e, PdNode(v).Depth());
    hide TreeOk, TableAt, Huge, Present;
    WholeFrame(e);
  }

  lemma WholeFrame(e: nat)
    requires e < ENTRY_LIMIT && e / PAGE_SIZE % 512 == 0
    ensures e / 0x20_0000 % 0x8000_0000 * 512 == e / PAGE_SIZE
  {
    var f := e / PAGE_SIZE;
    assert f == f / 512 * 512;
    assert e / 0x20_0000 == f / 512;
  }

  /** Tables no deeper than q stay where they are when an entry of the table at q is written. */
  lemma {:induction false} UpperTablesStay(m: Memory, root: nat, q: Node, i: Index, e: nat, r: Node)
    requires TreeOk(m, root) && TableAt(m, root, q).Some? && r.Depth() <= q.Depth()
    ensures TableAt(Store(m, TableAt(m, root, q).value, i, e), root, r) == TableAt(m, root, r)
  {
    if r.Child? {
      UpperTablesStay(m, root, q, i, e, r.up);
    }
  }

  /** A present 4 KiB entry written into a table above the PTs turns the frame it names into a table. */
  lemma OverwrittenTable(m: Memory, root: nat, q: Node, i: Index, e: nat)
    requires TreeOk(m, root) && TableAt(m, root, q).Some? && q.Depth() < 3 && Present(e) && !Huge(e)
    ensures TableAt(Store(m, TableAt(m, root, q).value, i, e), root, Child(q, i)) == Some(Frame(e))
  {
    UpperTablesStay(m, root, q, i, e, q);
  }
}
