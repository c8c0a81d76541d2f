/** 64-bit words: alignment to pages and single-bit updates, as avmf.c writes them. */
module Words {

  datatype Option<+T> = None | Some(value: T)

  const PAGE_SIZE: nat := 4096
  const TWO32: nat := 0x1_0000_0000
  const TWO64: nat := 0x1_0000_0000_0000_0000

  type Word = w: nat | w < TWO64

  function Pow2(n: nat): (r: nat)
    ensures r >= 1
  {
    if n == 0 then 1 else 2 * Pow2(n - 1)
  }

  lemma {:induction false} Pow2Monotone(m: nat, n: nat)
    requires m <= n
    ensures Pow2(m) <= Pow2(n)
  {
    if m < n {
      Pow2Monotone(m, n - 1);
    }
  }

  lemma Pow2Values()
    ensures Pow2(32) == TWO32 && Pow2(52) == 0x10_0000_0000_0000 && Pow2(64) == TWO64
  {
    assert Pow2(8) == 256;
    assert Pow2(16) == 65536;
    assert Pow2(24) == 0x100_0000;
    assert Pow2(32) == TWO32;
    assert Pow2(40) == 0x100_0000_0000;
    assert Pow2(48) == 0x1_0000_0000_0000;
    assert Pow2(52) == 0x10_0000_0000_0000;
    assert Pow2(60) == 0x1000_0000_0000_0000;
  }

  /** The 64-bit sum is taken modulo 2^64 before the low twelve bits are dropped. */
  function Align4k(value: nat): (r: nat)
    ensures r % PAGE_SIZE == 0
    ensures value + PAGE_SIZE <= TWO64 ==> value <= r < value + PAGE_SIZE
    ensures TWO64 < value + PAGE_SIZE && value < TWO64 ==> r == 0
  {
    var w := (value + PAGE_SIZE - 1) % TWO64;
    w - w % PAGE_SIZE
  }

  lemma AlignOnePage()
    ensures Align4k(PAGE_SIZE) == PAGE_SIZE && Align4k(PAGE_SIZE) / PAGE_SIZE == 1
  {
  }

  predicate Bit(w: nat, k: nat)
    decreases k
  {
    if k == 0 then w % 2 == 1 else Bit(w / 2, k - 1)
  }

  /** w | (1 << k) */
  function SetBit(w: nat, k: nat): nat
    decreases k
  {
    if k == 0 then (if w % 2 == 1 then w else w + 1)
    else 2 * SetBit(w / 2, k - 1) + w % 2
  }

  /** w & ~(1 << k) */
  function ClearBit(w: nat, k: nat): nat
    decreases k
  {
    if k == 0 then (if w % 2 == 1 then w - 1 else w)
    else 2 * ClearBit(w / 2, k - 1) + w % 2
  }

  lemma {:induction false} SetBitExact(w: nat, k: nat, j: nat)
    ensures Bit(SetBit(w, k), j) <==> j == k || Bit(w, j)
    decreases k
  {
    if k > 0 && j > 0 {
      SetBitExact(w / 2, k - 1, j - 1);
      assert SetBit(w, k) / 2 == SetBit(w / 2, k - 1);
    }
  }

  lemma {:induction false} ClearBitExact(w: nat, k: nat, j: nat)
    ensures Bit(ClearBit(w, k), j) <==> j != k && Bit(w, j)
    decreases k
  {
    if k > 0 && j > 0 {
      ClearBitExact(w / 2, k - 1, j - 1);
      assert ClearBit(w, k) / 2 == ClearBit(w / 2, k - 1);
    }
  }

  lemma {:induction false} SetBitValue(w: nat, k: nat)
    ensures SetBit(w, k) == if Bit(w, k) then w else w + Pow2(k)
    decreases k
  {
    if k > 0 {
      SetBitValue(w / 2, k - 1);
    }
  }

  /** Updating a bit of an n-bit word leaves an n-bit word. */
  lemma {:induction false} BitUpdateFits(w: nat, k: nat, n: nat)
    requires k < n && w < Pow2(n)
    ensures SetBit(w, k) < Pow2(n) && ClearBit(w, k) < Pow2(n)
    decreases k
  {
    if k > 0 {
      BitUpdateFits(w / 2, k - 1, n - 1);
    }
  }

  lemma {:induction false} LowBits(w: nat, n: nat, k: nat)
    requires k < n
    ensures Bit(w % Pow2(n), k) <==> Bit(w, k)
    decreases k
  {
    HalfOfLowBits(w, n);
    if k > 0 {
      LowBits(w / 2, n - 1, k - 1);
    }
  }

  lemma HalfOfLowBits(w: nat, n: nat)
    requires n >= 1
    ensures w % Pow2(n) / 2 == w / 2 % Pow2(n - 1) && w % Pow2(n) % 2 == w % 2
  {
    var h := Pow2(n - 1);
    var q, r := w / 2 / h, w / 2 % h;
    assert w / 2 == q * h + r;
    Doubled(q, h);
    RemainderIs(w, Pow2(n), q, 2 * r + w % 2);
  }

  lemma Doubled(q: nat, h: nat)
    ensures q * (2 * h) == 2 * (q * h)
  {
  }

  lemma RemainderIs(w: nat, m: nat, q: nat, r: nat)
    requires w == q * m + r && r < m
    ensures w % m == r && w / m == q
  {
    var d := w / m - q;
    assert w == w / m * m + w % m;
    assert d * m == r - w % m;
    Multiples(d, m);
  }

  lemma Multiples(d: int, m: int)
    requires m >= 0
    ensures (d >= 1 ==> d * m >= m) && (d <= -1 ==> d * m <= -m)
  {
  }

  lemma {:induction false} BitsBelow(w: nat, n: nat, k: nat)
    requires w < Pow2(n) && n <= k
    ensures !Bit(w, k)
    decreases k
  {
    if k == 0 {
    } else if n == 0 {
      ZeroHasNoBits(k);
    } else {
      BitsBelow(w / 2, n - 1, k - 1);
    }
  }

  lemma {:induction false} ZeroHasNoBits(k: nat)
    ensures !Bit(0, k)
  {
    if k > 0 {
      ZeroHasNoBits(k - 1);
    }
  }
}
