/** Virtual addresses as table indices, and the arithmetic of ranges of pages. */
module Addresses {
  import opened Words
  import opened Paging

  /** Pages a 48-bit walk can tell apart. */
  const SPACE_PAGES: nat := 0x10_0000_0000
  const SLOT_SIZE: nat := 0x20_0000
  const SLOT_PAGES: nat := 512

  function VPageOf(virt: nat): VPage {
    VPage(virt / 0x80_0000_0000 % 512, virt / 0x4000_0000 % 512, virt / 0x20_0000 % 512, virt / 0x1000 % 512)
  }

  function VNum(v: VPage): (r: nat)
    ensures r < SPACE_PAGES
  {
    v.i4 * 0x800_0000 + v.i3 * 0x4_0000 + v.i2 * 512 + v.i1
  }

  lemma VNumInjective(v: VPage, w: VPage)
    requires VNum(v) == VNum(w)
    ensures v == w
  {
    assert v.i4 == w.i4 by {
      assert v.i3 * 0x4_0000 + v.i2 * 512 + v.i1 < 0x800_0000 && w.i3 * 0x4_0000 + w.i2 * 512 + w.i1 < 0x800_0000;
    }
    assert v.i3 == w.i3;
  }

  lemma Remainder(q: nat, r: nat)
    ensures r < 0x4_0000 ==> (q * 0x4_0000 + r) % 0x4_0000 == r
    ensures r < 0x800_0000 ==> (q * 0x800_0000 + r) % 0x800_0000 == r
    ensures r < 0x10_0000_0000 ==> (q * 0x10_0000_0000 + r) % 0x10_0000_0000 == r
  {
  }

  /** Dropping all but the lowest digits in base 512. */
  lemma Digits(n: nat)
    ensures n % 0x4_0000 == n / 512 % 512 * 512 + n % 512
    ensures n % 0x800_0000 == n / 0x4_0000 % 512 * 0x4_0000 + n % 0x4_0000
    ensures n % 0x10_0000_0000 == n / 0x800_0000 % 512 * 0x800_0000 + n % 0x800_0000
  {
    var q1, q2, q3 := n / 512, n / 0x4_0000, n / 0x800_0000;
    Remainder(q1 / 512, q1 % 512 * 512 + n % 512);
    Remainder(q2 / 512, q2 % 512 * 0x4_0000 + n % 0x4_0000);
    Remainder(q3 / 512, q3 % 512 * 0x800_0000 + n % 0x800_0000);
  }

  lemma ShiftedIndex(virt: nat)
    ensures var n := virt / 0x1000;
            virt / 0x20_0000 == n / 512 && virt / 0x4000_0000 == n / 0x4_0000
            && virt / 0x80_0000_0000 == n / 0x800_0000
  {
    var n, r := virt / 0x1000, virt % 0x1000;
    assert virt == n * 0x1000 + r;
    assert n == n / 512 * 512 + n % 512;
    assert n == n / 0x4_0000 * 0x4_0000 + n % 0x4_0000;
    assert n == n / 0x800_0000 * 0x800_0000 + n % 0x800_0000;
  }

  lemma VNumOf(virt: nat)
    ensures VNum(VPageOf(virt)) == virt / PAGE_SIZE % SPACE_PAGES
  {
    ShiftedIndex(virt);
    var n := virt / 0x1000;
    Digits(n);
  }

  /** The indices are the digits of the address: nine bits each above the twelve of the page offset. */
  lemma AddressDigits(virt: nat)
    ensures var v := VPageOf(virt);
            virt % 0x1_0000_0000_0000
            == v.i4 * 0x80_0000_0000 + v.i3 * 0x4000_0000 + v.i2 * 0x20_0000 + v.i1 * 0x1000 + virt % 0x1000
  {
    VNumOf(virt);
    hide VPageOf;
    var n, r := virt / 0x1000, virt % 0x1000;
    var q, m := n / SPACE_PAGES, n % SPACE_PAGES;
    assert virt == q * 0x1_0000_0000_0000 + (m * 0x1000 + r);
    RemainderIs(virt, 0x1_0000_0000_0000, q, m * 0x1000 + r);
  }

  /** How many pages v lies after virt, going round the 48-bit space. */
  function Offset(virt: nat, v: VPage): (r: nat)
    ensures r < SPACE_PAGES
  {
    (VNum(v) - virt / PAGE_SIZE) % SPACE_PAGES
  }

  /** The address of the k-th page of a range: a 64-bit sum. */
  function PageAddress(virt: nat, k: nat): nat {
    (virt + k * PAGE_SIZE) % TWO64
  }

  /** Dropping multiples of 2^64 from an address does not change its page modulo 2^36. */
  lemma PageOfSum(a: nat)
    ensures a % TWO64 / PAGE_SIZE % SPACE_PAGES == a / PAGE_SIZE % SPACE_PAGES
  {
    var q, r := a / TWO64, a % TWO64;
    var p := r / PAGE_SIZE;
    assert a == q * TWO64 + p * PAGE_SIZE + r % PAGE_SIZE;
    assert a / PAGE_SIZE == q * 0x10_0000_0000_0000 + p;
    var c, d := p / SPACE_PAGES, p % SPACE_PAGES;
    assert a / PAGE_SIZE == (q * 0x1_0000 + c) * SPACE_PAGES + d;
  }

  lemma SubtractModSpace(a: nat, n: nat, k: nat)
    requires a < SPACE_PAGES && k < SPACE_PAGES
    ensures (a - n) % SPACE_PAGES == k <==> a == (n + k) % SPACE_PAGES
  {
    var q, r := n / SPACE_PAGES, n % SPACE_PAGES;
    assert n == q * SPACE_PAGES + r;
    var d := if a >= r then a - r else a - r + SPACE_PAGES;
    assert a - n == (if a >= r then -q else -q - 1) * SPACE_PAGES + d;
    assert (a - n) % SPACE_PAGES == d;
    var u := if r + k < SPACE_PAGES then r + k else r + k - SPACE_PAGES;
    assert n + k == (if r + k < SPACE_PAGES then q else q + 1) * SPACE_PAGES + u;
    assert (n + k) % SPACE_PAGES == u;
  }

  lemma PageAddressNumber(virt: nat, k: nat)
    ensures VNum(VPageOf(PageAddress(virt, k))) == (virt / PAGE_SIZE + k) % SPACE_PAGES
  {
    var a := virt + k * PAGE_SIZE;
    VNumOf(PageAddress(virt, k));
    PageOfSum(a);
    assert a / PAGE_SIZE == virt / PAGE_SIZE + k;
  }

  lemma OffsetExact(virt: nat, k: nat, v: VPage)
    requires k < SPACE_PAGES
    ensures VPageOf(PageAddress(virt, k)) == v <==> Offset(virt, v) == k
  {
    var u := VPageOf(PageAddress(virt, k));
    PageAddressNumber(virt, k);
    SubtractModSpace(VNum(v), virt / PAGE_SIZE, k);
    if VNum(u) == VNum(v) {
      VNumInjective(u, v);
    }
  }

  lemma AddModSpace(n: nat, j: nat)
    ensures (n + j) % SPACE_PAGES == (n % SPACE_PAGES + j) % SPACE_PAGES
  {
    var q, r := n / SPACE_PAGES, n % SPACE_PAGES;
    var c, d := (r + j) / SPACE_PAGES, (r + j) % SPACE_PAGES;
    assert n + j == (q + c) * SPACE_PAGES + d;
  }

  /** The same pages, counted from n and counted from the slot at a. */
  lemma SlotDistances(n: nat, k: nat, a: nat, b: nat)
    requires a == (n + k) % SPACE_PAGES && a + SLOT_PAGES <= SPACE_PAGES && b < SPACE_PAGES
    requires k + SLOT_PAGES <= SPACE_PAGES
    ensures var d := (b - n) % SPACE_PAGES;
            (a <= b < a + SLOT_PAGES <==> k <= d < k + SLOT_PAGES) && (a <= b < a + SLOT_PAGES ==> d == k + (b - a))
  {
    var d := (b - n) % SPACE_PAGES;
    if a <= b < a + SLOT_PAGES {
      SubtractModSpace(b, n, k + (b - a));
      AddModSpace(n + k, b - a);
      assert (a + (b - a)) % SPACE_PAGES == b;
    }
    if k <= d < k + SLOT_PAGES {
      SubtractModSpace(b, n, d);
      AddModSpace(n + k, d - k);
      assert (a + (d - k)) % SPACE_PAGES == a + (d - k);
    }
  }

  lemma SlotNumbers(s: VPage, v: VPage)
    requires s.i1 == 0
    ensures PtNode(v) == PtNode(s) <==> VNum(s) <= VNum(v) < VNum(s) + SLOT_PAGES
    ensures PtNode(v) == PtNode(s) ==> VNum(v) == VNum(s) + v.i1
    ensures VNum(s) % SLOT_PAGES == 0
  {
    assert PtNode(v) == PtNode(s) <==> v.i4 == s.i4 && v.i3 == s.i3 && v.i2 == s.i2;
    if VNum(s) <= VNum(v) < VNum(s) + SLOT_PAGES {
      var w := v.(i1 := 0);
      assert VNum(w) == VNum(s);
      VNumInjective(w, s);
    }
  }

  lemma AlignedStartsSlot(a: nat)
    requires a % SLOT_SIZE == 0
    ensures a / 0x1000 % 512 == 0
  {
    var q := a / SLOT_SIZE;
    assert a == q * 512 * 0x1000;
  }

  /** A 2 MiB aligned page starts a slot; the slot's pages are the next 512 pages of the range. */
  lemma SlotOffsets(virt: nat, k: nat, v: VPage)
    requires PageAddress(virt, k) % SLOT_SIZE == 0 && k + SLOT_PAGES <= SPACE_PAGES
    ensures var s := VPageOf(PageAddress(virt, k));
            && (PtNode(v) == PtNode(s) <==> k <= Offset(virt, v) < k + SLOT_PAGES)
            && (PtNode(v) == PtNode(s) ==> Offset(virt, v) == k + v.i1)
  {
    PageAddressNumber(virt, k);
    AlignedStartsSlot(PageAddress(virt, k));
    var s := VPageOf(PageAddress(virt, k));
    SlotNumbers(s, v);
    SlotDistances(virt / PAGE_SIZE, k, VNum(s), VNum(v));
  }

  /** The translation of an address: the frame of its page and the page offset. Only the table entries are
      meant: for an address that is not canonical the processor faults before it walks. */
  function Translate(m: Memory, cr3: nat, virt: nat): Option<nat> {
    match Walk(m, cr3, VPageOf(virt))
    case None => None
    case Some(leaf) => Some(leaf.frame * PAGE_SIZE + virt % PAGE_SIZE)
  }

  function OrPresent(low: nat): nat { if Present(low) then low else low + 1 }

  function OrHuge(flags: nat): nat { if Huge(flags) then flags else flags + HUGE_FLAG }

  /** flags | PAGE_HUGE sets bit 7 and leaves the other bits. */
  lemma OrHugeExact(flags: nat, k: nat)
    ensures Bit(OrHuge(flags), k) <==> k == 7 || Bit(flags, k)
  {
    BitSeven(flags);
    SetBitValue(flags, 7);
    assert Pow2(7) == HUGE_FLAG;
    SetBitExact(flags, 7, k);
  }

  /** The attributes a mapping is asked for: the low twelve flag bits and PAGE_PRESENT. */
  function Attrs(flags: nat): nat { OrPresent(flags % PAGE_SIZE) }

  /** Attributes as asked for: bit 0, and those of bits 1 to 11 that are set in the flags, bit 7 excepted. */
  ghost predicate AsAsked(attrs: nat, flags: nat) {
    forall k: nat :: Bit(attrs, k) <==> k == 0 || (k < 12 && k != 7 && Bit(flags, k))
  }

  lemma AttrsExact(flags: nat)
    requires !Huge(flags)
    ensures AsAsked(Attrs(flags), flags)
  {
    var low := flags % PAGE_SIZE;
    assert Pow2(12) == PAGE_SIZE;
    OrPresentFields(low);
    BitSeven(flags);
    hide Huge;
    forall k: nat
      ensures Bit(Attrs(flags), k) <==> k == 0 || (k < 12 && k != 7 && Bit(flags, k))
    {
      if k < 12 {
        LowBits(flags, 12, k);
        if k > 0 {
          assert OrPresent(low) / 2 == low / 2;
        }
      } else {
        BitsBelow(OrPresent(low), 12, k);
      }
    }
  }

  function SmallEntry(phys: nat, flags: nat): nat {
    phys - phys % PAGE_SIZE + OrPresent(flags % PAGE_SIZE)
  }

  function HugeEntry(phys: nat, flags: nat): nat {
    phys - phys % SLOT_SIZE + OrPresent(flags % PAGE_SIZE)
  }

  lemma SmallEntryMaps(phys: nat, flags: nat)
    requires phys < ENTRY_LIMIT
    ensures var e := SmallEntry(phys, flags);
            e < ENTRY_LIMIT && Present(e) && SmallLeaf(e) == Leaf(phys / PAGE_SIZE, Attrs(flags))
  {
  }

  /** Quotients and remainders by the constants of an entry's layout. */
  lemma Divide(q: nat, r: nat)
    ensures r < 2 ==> (q * 2 + r) % 2 == r
    ensures r < HUGE_FLAG ==> (q * HUGE_FLAG + r) / HUGE_FLAG == q
    ensures r < PAGE_SIZE ==> (q * PAGE_SIZE + r) / PAGE_SIZE == q && (q * PAGE_SIZE + r) % PAGE_SIZE == r
    ensures r < SLOT_SIZE ==> (q * SLOT_SIZE + r) / SLOT_SIZE == q
  {
  }

  lemma HugeFields(s: nat, low: nat)
    requires low < PAGE_SIZE
    ensures var e := s * SLOT_SIZE + low;
            e / SLOT_SIZE == s && e % PAGE_SIZE == low && (Present(e) <==> Present(low)) && (Huge(e) <==> Huge(low))
  {
    Divide(s, low);
    Divide(s * 512, low);
    Divide(s * 0x10_0000 + low / 2, low % 2);
    var q, r := low / HUGE_FLAG, low % HUGE_FLAG;
    Divide(s * 0x4000 + q, r);
    Divide(s * 0x2000 + q / 2, q % 2);
  }

  lemma HugeBits(s: nat, low: nat, i1: Index)
    requires s < 0x8000_0000 && low < PAGE_SIZE && Present(low) && Huge(low)
    ensures var e := s * SLOT_SIZE + low;
            && e < ENTRY_LIMIT && Present(e) && Huge(e) && HugeLeaf(e, i1) == Leaf(s * 512 + i1, low - HUGE_FLAG)
            && Frame(e) % 512 == 0
  {
    HugeFields(s, low);
    Divide(s * 512, low);
    hide Present, Huge;
  }

  lemma HugeBitIsLow(flags: nat)
    ensures Huge(flags) <==> Huge(flags % PAGE_SIZE)
  {
    var q, f := flags / PAGE_SIZE, flags % PAGE_SIZE;
    var c, d := f / HUGE_FLAG, f % HUGE_FLAG;
    Divide(q * 32 + c, d);
    Divide(q * 16 + c / 2, c % 2);
  }

  lemma SmallFields(f: nat, low: nat)
    requires low < PAGE_SIZE
    ensures var e := f * PAGE_SIZE + low;
            e / PAGE_SIZE == f && (Present(e) <==> Present(low)) && (Huge(e) <==> Huge(low))
  {
    Divide(f, low);
    Divide(f * 2048 + low / 2, low % 2);
    var q, r := low / HUGE_FLAG, low % HUGE_FLAG;
    Divide(f * 32 + q, r);
    Divide(f * 16 + q / 2, q % 2);
  }

  lemma OrPresentFields(low: nat)
    requires low < PAGE_SIZE
    ensures OrPresent(low) < PAGE_SIZE && Present(OrPresent(low)) && (Huge(OrPresent(low)) <==> Huge(low))
  {
    if !Present(low) {
      assert low / HUGE_FLAG == (low + 1) / HUGE_FLAG;
    }
  }

  /** The entry of a 4 KiB mapping, read as the entry of a table above the PTs. */
  lemma SmallEntryFields(phys: nat, flags: nat)
    requires !Huge(flags)
    ensures var e := SmallEntry(phys, flags); Present(e) && !Huge(e) && Frame(e) == phys / PAGE_SIZE
  {
    hide Huge, Present, OrPresent;
    HugeBitIsLow(flags);
    OrPresentFields(flags % PAGE_SIZE);
    SmallFields(phys / PAGE_SIZE, OrPresent(flags % PAGE_SIZE));
  }

  lemma HugeFlagFits(f: nat)
    requires f < PAGE_SIZE && !Huge(f)
    ensures f + HUGE_FLAG < PAGE_SIZE && OrPresent(f) + HUGE_FLAG < PAGE_SIZE
    ensures OrPresent(f + HUGE_FLAG) == OrPresent(f) + HUGE_FLAG
    ensures Huge(OrPresent(f) + HUGE_FLAG)
  {
    var c := f / HUGE_FLAG;
    assert c <= 30;
    assert (OrPresent(f) + HUGE_FLAG) / HUGE_FLAG == c + 1;
  }

  lemma HugeFlagAdds(flags: nat)
    requires !Huge(flags)
    ensures OrPresent(OrHuge(flags) % PAGE_SIZE) == Attrs(flags) + HUGE_FLAG < PAGE_SIZE
    ensures Huge(Attrs(flags) + HUGE_FLAG)
  {
    HugeBitIsLow(flags);
    HugeFlagFits(flags % PAGE_SIZE);
    Divide(flags / PAGE_SIZE, flags % PAGE_SIZE + HUGE_FLAG);
    hide Huge, OrPresent;
  }

  /** The first frame of the 2 MiB of physical memory an address lies in. */
  function SlotStart(phys: nat): nat { phys / SLOT_SIZE * SLOT_PAGES }

  /** An address inside a slot is rounded down to the slot. */
  lemma HugeEntryMaps(phys: nat, flags: nat, i1: Index)
    requires phys < ENTRY_LIMIT && !Huge(flags)
    ensures var e := HugeEntry(phys, OrHuge(flags));
            && EntryOk(e, 2) && Present(e) && Huge(e)
            && HugeLeaf(e, i1) == Leaf(SlotStart(phys) + i1, Attrs(flags))
  {
    HugeFlagAdds(flags);
    HugeBits(phys / SLOT_SIZE, Attrs(flags) + HUGE_FLAG, i1);
  }
}
