/** The integer printer of serial.c against the integer parser of core.c. */
module IntegerText {
  import opened Words

  const DIGITS: string := "0123456789abcdef"
  const BUFFER_SIZE: nat := 64
  const SIGN_BIT: nat := 0x8000_0000_0000_0000

  // ----- the printer

  /** The characters from the digit table on: its 16 digits, then whatever memory holds. */
  ghost predicate IsTable(table: nat -> char) {
    forall d: nat :: d < 16 ==> table(d) == DIGITS[d]
  }

  /** The digits of a value, most significant first. */
  function Digits(v: nat, base: nat): (r: seq<nat>)
    requires base >= 2
    ensures |r| >= 1 && forall k :: 0 <= k < |r| ==> r[k] < base
    decreases v
  {
    if v < base then [v]
    else
      QuotientHalves(v, base);
      Digits(v / base, base) + [v % base]
  }

  lemma QuotientHalves(v: nat, base: nat)
    requires base >= 2
    ensures v / base <= v / 2 && v == v / base * base + v % base && v % base < base
    ensures v < base ==> v / base == 0 && v % base == v
    ensures v >= base ==> v / base > 0
  {
    var q := v / base;
    assert v == q * base + v % base;
    assert q * 2 <= q * base;
  }

  /** The last digit and the digits before it. */
  lemma DigitsSplit(v: nat, base: nat)
    requires base >= 2
    ensures var s := Digits(v, base);
            && s[|s| - 1] == v % base
            && (if v < base then v / base == 0 && |s| == 1
                else v / base > 0 && s[..|s| - 1] == Digits(v / base, base) && |s| == |Digits(v / base, base)| + 1)
  {
    QuotientHalves(v, base);
  }

  /** Digits as the table shows them. */
  function Shown(ds: seq<nat>, table: nat -> char): (r: string)
    ensures |r| == |ds| && forall k :: 0 <= k < |r| ==> r[k] == table(ds[k])
  {
    seq(|ds|, k requires 0 <= k < |ds| => table(ds[k]))
  }

  /** Positional value of digits. */
  function Number(ds: seq<nat>, base: nat): nat
    decreases |ds|
  {
    if ds == [] then 0 else Number(ds[..|ds| - 1], base) * base + ds[|ds| - 1]
  }

  /** In every base the digits stand for the value, without a needless leading zero. */
  lemma {:induction false} DigitsMeanNumber(v: nat, base: nat)
    requires base >= 2
    ensures var ds := Digits(v, base); Number(ds, base) == v && (v > 0 ==> ds[0] > 0)
    decreases v
  {
    DigitsSplit(v, base);
    QuotientHalves(v, base);
    if v >= base {
      DigitsMeanNumber(v / base, base);
      hide Digits;
      assert Digits(v, base)[0] == Digits(v / base, base)[0];
    } else {
      assert Digits(v, base)[..0] == [];
    }
  }

  /** The digit table has a digit for every 64-bit value exactly in the bases up to 16. */
  lemma TableSuffices(base: nat)
    requires base >= 2
    ensures (forall v: nat, k: nat :: v < TWO64 && k < |Digits(v, base)| ==> Digits(v, base)[k] < 16) <==> base <= 16
  {
    if base > 16 {
      assert Digits(16, base) == [16];
      assert Digits(16, base)[0] == 16;
    }
  }

  function Repeat(c: char, n: nat): (r: string)
    ensures |r| == n
  {
    seq(n, _ => c)
  }

  predicate Negative(val: nat, signed: bool) { signed && val >= SIGN_BIT }

  /** The magnitude of a 64-bit value, read as signed or not. */
  function Magnitude(val: nat, signed: bool): nat
    requires val < TWO64
  {
    if Negative(val, signed) then TWO64 - val else val
  }

  function Sign(val: nat, signed: bool): string { if Negative(val, signed) then "-" else "" }

  /** What serial_print_ex_integer emits: zeroes go between the sign and the digits, blanks before it. */
  function Format(val: nat, base: nat, width: nat, zeroPad: bool, signed: bool, table: nat -> char): string
    requires val < TWO64 && base >= 2
  {
    var digits := Shown(Digits(Magnitude(val, signed), base), table);
    Front(|digits|, width, zeroPad, Sign(val, signed)) + digits
  }

  /** The sign and what fills the field before n digits. */
  function Front(n: nat, width: nat, zeroPad: bool, sign: string): (r: string)
    ensures |r| + n == if width > n + |sign| then width else n + |sign|
  {
    var pad := if width > n + |sign| then width - (n + |sign|) else 0;
    if zeroPad then sign + Repeat('0', pad) else Repeat(' ', pad) + sign
  }

  /** The length is the field width or what the number needs, whichever is more. */
  lemma FormatLength(val: nat, base: nat, width: nat, zeroPad: bool, signed: bool, table: nat -> char)
    requires val < TWO64 && base >= 2
    ensures var need := |Digits(Magnitude(val, signed), base)| + (if Negative(val, signed) then 1 else 0);
            |Format(val, base, width, zeroPad, signed, table)| == if width > need then width else need
    ensures |Digits(Magnitude(val, signed), base)| <= BUFFER_SIZE
  {
    Pow2Values();
    DigitsFit(Magnitude(val, signed), base, 64);
  }

  /** In every base a k-bit value has at most k digits. */
  lemma {:induction false} DigitsFit(v: nat, base: nat, k: nat)
    requires base >= 2 && k >= 1 && v < Pow2(k)
    ensures |Digits(v, base)| <= k
    decreases k
  {
    if v >= base {
      assert k >= 2 by {
        assert Pow2(1) == 2;
      }
      QuotientHalves(v, base);
      DigitsFit(v / base, base, k - 1);
      DigitsSplit(v, base);
    }
  }

  class Serial {
    const digits: nat -> char   // what lies in memory from the digit table on
    var output: string

    constructor (digits: nat -> char)
      ensures output == "" && this.digits == digits
    {
      this.digits := digits;
      output := "";
    }

    method PrintChar(c: char)
      modifies this
      ensures output == old(output) + [c]
    {
      output := output + [c];
    }

    /** serial_print_ex_integer. */
    method PrintInteger(val: nat, base: nat, width: nat, zeroPad: bool, signed: bool)
      requires val < TWO64 && base >= 2
      modifies this
      ensures output == old(output) + Format(val, base, width, zeroPad, signed, digits)
    {
      hide Digits, Shown, Front;
      var buf := new char[BUFFER_SIZE];
      var neg := false;
      var v := val;
      if signed && val >= SIGN_BIT {
        neg := true;
        v := TWO64 - val;
      }
      var i := FillBuffer(buf, v, base, digits);
      ghost var shown := Shown(Digits(Magnitude(val, signed), base), digits);
      PrintFront(i, width, zeroPad, neg);
      PrintReversed(buf, i, shown);
    }

    /** The field before the digits: padding and sign. */
    method PrintFront(n: nat, width: nat, zeroPad: bool, negative: bool)
      modifies this
      ensures output == old(output) + Front(n, width, zeroPad, if negative then "-" else "")
    {
      hide Repeat;
      var neg := negative;
      var totalLen := n + if neg then 1 else 0;
      if width > totalLen {
        var paddingCount := width - totalLen;
        if zeroPad {
          if neg {
            PrintChar('-');
            neg := false;
          }
          PrintMany('0', paddingCount);
        } else {
          PrintMany(' ', paddingCount);
        }
      }
      if neg {
        PrintChar('-');
      }
    }

    method PrintMany(c: char, n: nat)
      modifies this
      ensures output == old(output) + Repeat(c, n)
    {
      var left := n;
      while left > 0
        invariant 0 <= left <= n && output == old(output) + Repeat(c, n - left)
      {
        PrintChar(c);
        left := left - 1;
      }
    }

    method PrintReversed(buf: array<char>, n: nat, ghost shown: string)
      requires n == |shown| <= buf.Length && forall k :: 0 <= k < n ==> buf[k] == shown[n - 1 - k]
      modifies this
      ensures output == old(output) + shown
    {
      var i := n;
      while i > 0
        invariant 0 <= i <= n && output == old(output) + shown[..n - i]
      {
        i := i - 1;
        PrintChar(buf[i]);
      }
      assert shown[..n] == shown;
    }
  }

  /** The digit loop: least significant digit first, never past the 64 characters of the buffer. */
  method FillBuffer(buf: array<char>, val: nat, base: nat, table: nat -> char) returns (i: nat)
    requires val < TWO64 && base >= 2 && buf.Length == BUFFER_SIZE
    modifies buf
    ensures var shown := Shown(Digits(val, base), table);
            i == |shown| <= BUFFER_SIZE && forall k :: 0 <= k < i ==> buf[k] == shown[i - 1 - k]
  {
    hide Digits, Pow2, Shown;
    BufferSuffices(val, base);
    DigitsSplit(val, base);
    ghost var ds := Digits(val, base);
    var v := val;
    buf[0] := table(v % base);
    i := 1;
    v := v / base;
    while v > 0
      invariant 1 <= i <= |ds| <= BUFFER_SIZE && v >= 0
      invariant v > 0 ==> ds[..|ds| - i] == Digits(v, base)
      invariant v == 0 ==> i == |ds|
      invariant forall k :: 0 <= k < i ==> buf[k] == table(ds[|ds| - 1 - k])
      decreases v
    {
      DigitsSplit(v, base);
      QuotientHalves(v, base);
      ghost var head := Digits(v, base);
      assert |head| == |ds| - i && ds[|ds| - 1 - i] == head[|head| - 1];
      assert head[..|head| - 1] == ds[..|ds| - (i + 1)];
      buf[i] := table(v % base);
      i := i + 1;
      v := v / base;
    }
  }

  lemma BufferSuffices(v: nat, base: nat)
    requires v < TWO64 && base >= 2
    ensures |Digits(v, base)| <= BUFFER_SIZE
  {
    Pow2Values();
    DigitsFit(v, base, 64);
  }

  // ----- what digits mean

  function DigitValue(c: char): nat {
    if '0' <= c <= '9' then (c - '0') as nat else if 'a' <= c <= 'f' then (c - 'a') as nat + 10
    else if 'A' <= c <= 'F' then (c - 'A') as nat + 10 else 0
  }

  predicate IsDecimal(c: char) { '0' <= c <= '9' }

  predicate IsHex(c: char) { '0' <= c <= '9' || 'a' <= c <= 'f' || 'A' <= c <= 'F' }

  /** Positional value of text. */
  function Value(s: string, base: nat): nat
    decreases |s|
  {
    if s == [] then 0 else Value(s[..|s| - 1], base) * base + DigitValue(s[|s| - 1])
  }

  lemma DigitOf(d: nat, table: nat -> char)
    requires d < 16 && IsTable(table)
    ensures DigitValue(table(d)) == d && IsHex(table(d)) && (d < 10 ==> IsDecimal(table(d)))
  {
  }

  /** Digits below 16, shown and read back. */
  lemma {:induction false} ShownMeansNumber(ds: seq<nat>, base: nat, table: nat -> char)
    requires base <= 16 && IsTable(table) && forall k :: 0 <= k < |ds| ==> ds[k] < base
    ensures var s := Shown(ds, table);
            && Value(s, base) == Number(ds, base)
            && forall k :: 0 <= k < |s| ==> IsHex(s[k]) && (base <= 10 ==> IsDecimal(s[k]))
    decreases |ds|
  {
    if ds != [] {
      var front, s := ds[..|ds| - 1], Shown(ds, table);
      ShownMeansNumber(front, base, table);
      DigitOf(ds[|ds| - 1], table);
      hide DigitValue, IsHex, IsDecimal;
      assert s[..|s| - 1] == Shown(front, table);
      assert forall k :: 0 <= k < |s| - 1 ==> s[k] == Shown(front, table)[k];
    }
  }

  /** In the bases that have digits, what is printed reads as the value. */
  lemma DigitsMeanValue(v: nat, base: nat, table: nat -> char)
    requires 2 <= base <= 16 && IsTable(table)
    ensures var s := Shown(Digits(v, base), table);
            && Value(s, base) == v
            && forall k :: 0 <= k < |s| ==> IsHex(s[k]) && (base <= 10 ==> IsDecimal(s[k]))
  {
    hide Digits;
    DigitsMeanNumber(v, base);
    ShownMeansNumber(Digits(v, base), base, table);
  }

  // ----- the parser

  /** The decimal loop from accumulator acc, in 32-bit arithmetic. */
  function ParseDecimal(s: string, acc: nat): nat
    decreases |s|
  {
    if s == [] || !IsDecimal(s[0]) then acc
    else ParseDecimal(s[1..], (acc * 10 + DigitValue(s[0])) % TWO32)
  }

  /** The hexadecimal loop: the accumulator is shifted before the character is looked at. */
  function ParseHex(s: string, acc: nat): nat
    decreases |s|
  {
    if s == [] then acc
    else
      var shifted := acc * 16 % TWO32;
      if IsHex(s[0]) then ParseHex(s[1..], (shifted + DigitValue(s[0])) % TWO32) else shifted
  }

  predicate HexPrefix(s: string) { |s| >= 2 && s[0] == '0' && (s[1] == 'x' || s[1] == 'X') }

  /** str_to_uint of a string up to its terminator. */
  function StrToUint(s: string): nat {
    if HexPrefix(s) then ParseHex(s[2..], 0) else ParseDecimal(s, 0)
  }

  method ParseUint(s: string) returns (result: nat)
    ensures result == StrToUint(s)
  {
    result := 0;
    var i := 0;
    if |s| >= 2 && s[0] == '0' && (s[1] == 'x' || s[1] == 'X') {
      i := 2;
      while i < |s|
        invariant 2 <= i <= |s| && ParseHex(s[i..], result) == ParseHex(s[2..], 0)
      {
        var c := s[i];
        i := i + 1;
        assert s[i - 1..][1..] == s[i..];
        result := result * 16 % TWO32;
        if '0' <= c <= '9' {
          result := (result + (c - '0') as nat) % TWO32;
        } else if 'a' <= c <= 'f' {
          result := (result + (c - 'a') as nat + 10) % TWO32;
        } else if 'A' <= c <= 'F' {
          result := (result + (c - 'A') as nat + 10) % TWO32;
        } else {
          return;
        }
      }
    } else {
      assert s[0..] == s;
      while i < |s| && '0' <= s[i] <= '9'
        invariant 0 <= i <= |s| && ParseDecimal(s[i..], result) == ParseDecimal(s, 0)
      {
        result := (result * 10 + (s[i] - '0') as nat) % TWO32;
        i := i + 1;
        assert s[i - 1..][1..] == s[i..];
      }
    }
  }

  // ----- the round trip

  lemma {:induction false} ParseDecimalInTwo(a: string, b: string, acc: nat)
    requires forall k :: 0 <= k < |a| ==> IsDecimal(a[k])
    ensures ParseDecimal(a + b, acc) == ParseDecimal(b, ParseDecimal(a, acc))
    decreases |a|
  {
    if a == [] {
      assert a + b == b;
    } else {
      assert (a + b)[1..] == a[1..] + b;
      ParseDecimalInTwo(a[1..], b, (acc * 10 + DigitValue(a[0])) % TWO32);
    }
  }

  lemma {:induction false} ParseHexInTwo(a: string, b: string, acc: nat)
    requires forall k :: 0 <= k < |a| ==> IsHex(a[k])
    ensures ParseHex(a + b, acc) == ParseHex(b, ParseHex(a, acc))
    decreases |a|
  {
    if a == [] {
      assert a + b == b;
    } else {
      assert (a + b)[1..] == a[1..] + b;
      ParseHexInTwo(a[1..], b, (acc * 16 % TWO32 + DigitValue(a[0])) % TWO32);
    }
  }

  lemma LowPart(q: nat, r: nat)
    requires r < TWO32
    ensures (q * TWO32 + r) % TWO32 == r
  {
  }

  /** A step of the accumulator may be taken modulo 2^32. */
  lemma StepTen(n: nat, d: nat)
    ensures (n % TWO32 * 10 + d) % TWO32 == (n * 10 + d) % TWO32
  {
    var q, r := n / TWO32, n % TWO32;
    var c, e := (r * 10 + d) / TWO32, (r * 10 + d) % TWO32;
    assert n * 10 + d == (q * 10 + c) * TWO32 + e;
    LowPart(q * 10 + c, e);
  }

  lemma StepSixteen(n: nat, d: nat)
    ensures (n % TWO32 * 16 % TWO32 + d) % TWO32 == (n * 16 + d) % TWO32
  {
    var q, r := n / TWO32, n % TWO32;
    var c, e := r * 16 / TWO32, r * 16 % TWO32;
    var f, g := (e + d) / TWO32, (e + d) % TWO32;
    assert n * 16 + d == (q * 16 + c + f) * TWO32 + g;
    LowPart(q * 16 + c + f, g);
  }

  /** Parsing decimal digits computes their positional value modulo 2^32. */
  lemma {:induction false} DecimalParsesValue(s: string)
    requires forall k :: 0 <= k < |s| ==> IsDecimal(s[k])
    ensures ParseDecimal(s, 0) == Value(s, 10) % TWO32
    decreases |s|
  {
    if s != [] {
      var a, b := s[..|s| - 1], [s[|s| - 1]];
      assert s == a + b;
      DecimalParsesValue(a);
      ParseDecimalInTwo(a, b, 0);
      assert b[1..] == [];
      StepTen(Value(a, 10), DigitValue(b[0]));
    }
  }

  lemma {:induction false} HexParsesValue(s: string)
    requires forall k :: 0 <= k < |s| ==> IsHex(s[k])
    ensures ParseHex(s, 0) == Value(s, 16) % TWO32
    decreases |s|
  {
    if s != [] {
      var a, b := s[..|s| - 1], [s[|s| - 1]];
      assert s == a + b;
      HexParsesValue(a);
      ParseHexInTwo(a, b, 0);
      assert b[1..] == [];
      StepSixteen(Value(a, 16), DigitValue(b[0]));
    }
  }

  /** Zeroes in front change no value. */
  lemma {:induction false} LeadingZeroes(n: nat, s: string, base: nat)
    ensures Value(Repeat('0', n) + s, base) == Value(s, base)
    decreases |s|, n
  {
    var t := Repeat('0', n) + s;
    if s != [] {
      assert t[..|t| - 1] == Repeat('0', n) + s[..|s| - 1];
      LeadingZeroes(n, s[..|s| - 1], base);
    } else if n > 0 {
      assert t[..n - 1] == Repeat('0', n - 1) + s;
      LeadingZeroes(n - 1, s, base);
    }
  }

  lemma ZeroIsDigit()
    ensures IsHex('0') && IsDecimal('0')
  {
  }

  /** Printed with the width made up by zeroes, or with no need to make it up. */
  lemma Unblanked(v: nat, base: nat, width: nat, zeroPad: bool, table: nat -> char)
    requires v < TWO64 && 2 <= base <= 16 && IsTable(table)
    ensures var digits := Digits(v, base);
            var text := Format(v, base, width, zeroPad, false, table);
            && (zeroPad || width <= |digits| ==>
                  Value(text, base) == v
                  && forall k :: 0 <= k < |text| ==> IsHex(text[k]) && (base <= 10 ==> IsDecimal(text[k])))
            && (!zeroPad && width > |digits| ==> text != [] && text[0] == ' ')
  {
    hide Digits, Shown, Value, IsHex, IsDecimal, Front, Repeat;
    DigitsMeanValue(v, base, table);
    ZeroIsDigit();
    var digits := Shown(Digits(v, base), table);
    var pad := if width > |digits| then width - |digits| else 0;
    UnsignedFront(|digits|, width, zeroPad);
    if zeroPad || width <= |digits| {
      LeadingZeroes(pad, digits, base);
      RepeatedDigits(pad);
    }
  }

  /** In front of an unsigned number stand only zeroes, or a blank first. */
  lemma UnsignedFront(n: nat, width: nat, zeroPad: bool)
    ensures var pad := if width > n then width - n else 0;
            var front := Front(n, width, zeroPad, "");
            && (zeroPad || width <= n ==> front == Repeat('0', pad))
            && (!zeroPad && width > n ==> front != [] && front[0] == ' ')
  {
  }

  lemma RepeatedDigits(n: nat)
    ensures forall k :: 0 <= k < n ==> Repeat('0', n)[k] == '0'
  {
  }

  /** Reading back what was printed in decimal gives the value modulo 2^32 (so every value below 2^32
      itself) exactly when no blank was put in front, or the answer is zero anyway. */
  lemma DecimalRoundTrip(v: nat, width: nat, zeroPad: bool, table: nat -> char)
    requires v < TWO64 && IsTable(table)
    ensures StrToUint(Format(v, 10, width, zeroPad, false, table)) == v % TWO32
            <==> zeroPad || width <= |Digits(v, 10)| || v % TWO32 == 0
  {
    hide Digits, Value, Format;
    Unblanked(v, 10, width, zeroPad, table);
    if zeroPad || width <= |Digits(v, 10)| {
      DecimalParsesValue(Format(v, 10, width, zeroPad, false, table));
    }
  }

  /** ... and in hexadecimal, behind the prefix 0x. */
  lemma HexRoundTrip(v: nat, width: nat, zeroPad: bool, table: nat -> char)
    requires v < TWO64 && IsTable(table)
    ensures StrToUint("0x" + Format(v, 16, width, zeroPad, false, table)) == v % TWO32
            <==> zeroPad || width <= |Digits(v, 16)| || v % TWO32 == 0
  {
    hide Digits, Value, Format;
    var text := Format(v, 16, width, zeroPad, false, table);
    assert ("0x" + text)[2..] == text && HexPrefix("0x" + text);
    Unblanked(v, 16, width, zeroPad, table);
    if zeroPad || width <= |Digits(v, 16)| {
      HexParsesValue(text);
    }
  }

  /** The parser is said to stop at the first invalid character. In hexadecimal it has by then made room
      for one more digit: the result is sixteen times the value of the digits before, which is that value
      only when it is zero modulo 2^32. */
  lemma InvalidHexShifts(digits: string, c: char, rest: string)
    requires (forall k :: 0 <= k < |digits| ==> IsHex(digits[k])) && !IsHex(c)
    ensures var result := StrToUint("0x" + digits + [c] + rest);
            && result == Value(digits, 16) * 16 % TWO32
            && (result == Value(digits, 16) % TWO32 <==> Value(digits, 16) % TWO32 == 0)
  {
    hide Value, IsHex, ParseHex;
    var text, tail := "0x" + digits + [c] + rest, [c] + rest;
    assert text[2..] == digits + tail && HexPrefix(text);
    ParseHexInTwo(digits, tail, 0);
    HexParsesValue(digits);
    var n := Value(digits, 16);
    HexStops(c, rest, n % TWO32);
    ShiftModulo(n);
    SixteenTimes(n);
  }

  lemma ShiftModulo(n: nat)
    ensures n % TWO32 * 16 % TWO32 == n * 16 % TWO32
  {
    var q, r := n / TWO32, n % TWO32;
    var c, e := r * 16 / TWO32, r * 16 % TWO32;
    assert n * 16 == (q * 16 + c) * TWO32 + e;
    LowPart(q * 16 + c, e);
  }

  lemma HexStops(c: char, rest: string, acc: nat)
    requires !IsHex(c)
    ensures ParseHex([c] + rest, acc) == acc * 16 % TWO32
  {
  }

  lemma SixteenTimes(n: nat)
    ensures n * 16 % TWO32 == n % TWO32 <==> n % TWO32 == 0
  {
    var q, r := n / TWO32, n % TWO32;
    var c, e := r * 16 / TWO32, r * 16 % TWO32;
    assert n * 16 == (q * 16 + c) * TWO32 + e;
    LowPart(q * 16 + c, e);
    if e == r {
      assert 15 * r == c * TWO32 && c < 16;
    }
  }

  // ----- what is printed, read as a signed number

  /** The text from its first character on that is no blank. */
  function Unblank(s: string): string
    decreases |s|
  {
    if s != [] && s[0] == ' ' then Unblank(s[1..]) else s
  }

  /** The number a reader makes of a text: blanks, a minus sign or none, then digits. */
  function Reading(s: string, base: nat): int {
    var t := Unblank(s);
    if t != [] && t[0] == '-' then -(Value(t[1..], base) as int) else Value(t, base)
  }

  /** Past its blanks and its sign a text consists of digits, at least one. */
  predicate IsNumeral(s: string) {
    var t := Unblank(s);
    var ds := if t != [] && t[0] == '-' then t[1..] else t;
    ds != [] && forall k :: 0 <= k < |ds| ==> IsHex(ds[k])
  }

  lemma {:induction false} BlanksAreSkipped(n: nat, s: string)
    requires s != [] && s[0] != ' '
    ensures Unblank(Repeat(' ', n) + s) == s
    decreases n
  {
    var t := Repeat(' ', n) + s;
    if n > 0 {
      assert t[1..] == Repeat(' ', n - 1) + s;
      BlanksAreSkipped(n - 1, s);
    } else {
      assert t == s;
    }
  }

  lemma NoMarkIsDigit(c: char)
    requires IsHex(c)
    ensures c != ' ' && c != '-'
  {
  }

  /** Whatever the width and the padding, what is printed is a numeral, and it reads as the value in two's
      complement: the sign stands before the digits and the zeroes that fill the field, after the blanks. */
  lemma PrintedReads(val: nat, base: nat, width: nat, zeroPad: bool, signed: bool, table: nat -> char)
    requires val < TWO64 && 2 <= base <= 16 && IsTable(table)
    ensures var text := Format(val, base, width, zeroPad, signed, table);
            && IsNumeral(text)
            && Reading(text, base)
               == if signed && val >= 0x8000_0000_0000_0000 then val - 0x1_0000_0000_0000_0000 else val
  {
    hide Digits, Shown, Value, Unblank, DigitValue, Front, Format;
    var v := Magnitude(val, signed);
    DigitsMeanValue(v, base, table);
    var digits := Shown(Digits(v, base), table);
    var blanks, zeroes := FrontShape(|digits|, width, zeroPad, Sign(val, signed));
    NumeralReads(blanks, Sign(val, signed), zeroes, digits, base);
    FormatShape(val, base, width, zeroPad, signed, table);
  }

  lemma FormatShape(val: nat, base: nat, width: nat, zeroPad: bool, signed: bool, table: nat -> char)
    requires val < TWO64 && base >= 2
    ensures var digits := Shown(Digits(Magnitude(val, signed), base), table);
            Format(val, base, width, zeroPad, signed, table)
            == Front(|digits|, width, zeroPad, Sign(val, signed)) + digits
  {
  }

  /** What stands before the digits: blanks, the sign, zeroes. */
  lemma FrontShape(n: nat, width: nat, zeroPad: bool, sign: string) returns (blanks: nat, zeroes: nat)
    ensures Front(n, width, zeroPad, sign) == Repeat(' ', blanks) + sign + Repeat('0', zeroes)
  {
    var pad := if width > n + |sign| then width - (n + |sign|) else 0;
    blanks, zeroes := if zeroPad then 0 else pad, if zeroPad then pad else 0;
    assert Repeat(' ', 0) == [] && Repeat('0', 0) == [];
  }

  lemma NumeralReads(blanks: nat, sign: string, zeroes: nat, digits: string, base: nat)
    requires (sign == "" || sign == "-") && digits != [] && forall k :: 0 <= k < |digits| ==> IsHex(digits[k])
    ensures var text := Repeat(' ', blanks) + sign + Repeat('0', zeroes) + digits;
            && IsNumeral(text)
            && Reading(text, base) == if sign == "-" then -(Value(digits, base) as int) else Value(digits, base)
  {
    hide Value, IsHex, Repeat, Unblank;
    ZeroIsDigit();
    RepeatedDigits(zeroes);
    LeadingZeroes(zeroes, digits, base);
    var ds := Repeat('0', zeroes) + digits;
    var text, t := Repeat(' ', blanks) + sign + Repeat('0', zeroes) + digits, sign + ds;
    assert text == Repeat(' ', blanks) + t;
    NoMarkIsDigit(ds[0]);
    BlanksAreSkipped(blanks, t);
    if sign == "-" {
      assert t[0] == '-' && t[1..] == ds;
    } else {
      assert t == ds;
    }
  }

  // ----- the parser's characters

  /** The hexadecimal digits are these, and no other character is one. */
  lemma DigitsExactly(c: char)
    ensures IsDecimal(c) <==> c in "0123456789"
    ensures IsHex(c) <==> c in "0123456789abcdef" || c in "0123456789ABCDEF"
    ensures forall d: nat :: d < 16 ==> DigitValue("0123456789abcdef"[d]) == DigitValue("0123456789ABCDEF"[d]) == d
  {
    CharacterIn(c, "0123456789", '0');
    CharacterIn(c, "abcdef", 'a');
    CharacterIn(c, "ABCDEF", 'A');
    assert "0123456789abcdef" == "0123456789" + "abcdef";
    assert "0123456789ABCDEF" == "0123456789" + "ABCDEF";
  }

  lemma CharacterIn(c: char, s: string, first: char)
    requires first as int + |s| < 0x80 && forall k :: 0 <= k < |s| ==> s[k] == (first as int + k) as char
    ensures c in s <==> first <= c && c as int < first as int + |s|
  {
    if first <= c && c as int < first as int + |s| {
      assert s[c as int - first as int] == c;
    }
  }

  function Upper(c: char): char {
    if 'a' <= c <= 'z' then (c as int - 32) as char else c
  }

  function UpperCase(s: string): (r: string)
    ensures |r| == |s| && forall k :: 0 <= k < |s| ==> r[k] == Upper(s[k])
  {
    seq(|s|, k requires 0 <= k < |s| => Upper(s[k]))
  }

  lemma UpperIsAlike(c: char)
    ensures IsHex(Upper(c)) == IsHex(c) && IsDecimal(Upper(c)) == IsDecimal(c)
    ensures IsHex(c) ==> DigitValue(Upper(c)) == DigitValue(c)
  {
  }

  lemma {:induction false} CaseInDecimal(s: string, acc: nat)
    ensures ParseDecimal(UpperCase(s), acc) == ParseDecimal(s, acc)
    decreases |s|
  {
    if s != [] {
      UpperIsAlike(s[0]);
      assert UpperCase(s)[1..] == UpperCase(s[1..]);
      CaseInDecimal(s[1..], (acc * 10 + DigitValue(s[0])) % TWO32);
    }
  }

  lemma {:induction false} CaseInHex(s: string, acc: nat)
    ensures ParseHex(UpperCase(s), acc) == ParseHex(s, acc)
    decreases |s|
  {
    if s != [] {
      UpperIsAlike(s[0]);
      assert UpperCase(s)[1..] == UpperCase(s[1..]);
      CaseInHex(s[1..], (acc * 16 % TWO32 + DigitValue(s[0])) % TWO32);
    }
  }

  /** Upper and lower case read alike, in the digits and in the prefix. */
  lemma CaseIsIgnored(s: string)
    ensures StrToUint(UpperCase(s)) == StrToUint(s)
  {
    assert HexPrefix(UpperCase(s)) == HexPrefix(s);
    if HexPrefix(s) {
      assert UpperCase(s)[2..] == UpperCase(s[2..]);
      CaseInHex(s[2..], 0);
    } else {
      CaseInDecimal(s, 0);
    }
  }

  /** A text without the prefix is read up to its first character that is no decimal digit: the result is the value
      of the digits before, modulo 2^32, whatever follows. */
  lemma DecimalStops(digits: string, rest: string)
    requires forall k :: 0 <= k < |digits| ==> digits[k] in "0123456789"
    requires rest == [] || rest[0] !in "0123456789"
    requires !(digits == "0" && rest != [] && (rest[0] == 'x' || rest[0] == 'X'))
    ensures StrToUint(digits + rest) == Value(digits, 10) % TWO32
  {
    forall k | 0 <= k < |digits|
      ensures IsDecimal(digits[k])
    {
      DigitsExactly(digits[k]);
    }
    var text := digits + rest;
    NoPrefix(digits, rest);
    ParseDecimalInTwo(digits, rest, 0);
    DecimalParsesValue(digits);
    if rest != [] {
      DigitsExactly(rest[0]);
    }
    hide IsDecimal, DigitValue, Value, HexPrefix;
  }

  lemma NoPrefix(digits: string, rest: string)
    requires forall k :: 0 <= k < |digits| ==> IsDecimal(digits[k])
    requires rest == [] || rest[0] !in "0123456789"
    requires !(digits == "0" && rest != [] && (rest[0] == 'x' || rest[0] == 'X'))
    ensures !HexPrefix(digits + rest)
  {
    if |digits| == 0 && rest != [] {
      assert rest[0] != '0' by {
        assert "0123456789"[0] == '0';
      }
    } else if |digits| == 1 {
      assert digits == [digits[0]];
    }
  }

  /** Behind either prefix the digits are read in base 16, modulo 2^32. */
  lemma PrefixReads(s: string)
    requires forall k :: 0 <= k < |s| ==> s[k] in "0123456789abcdef" || s[k] in "0123456789ABCDEF"
    ensures StrToUint("0x" + s) == StrToUint("0X" + s) == Value(s, 16) % TWO32
  {
    forall k | 0 <= k < |s|
      ensures IsHex(s[k])
    {
      DigitsExactly(s[k]);
    }
    HexParsesValue(s);
    assert ("0x" + s)[2..] == s && ("0X" + s)[2..] == s;
    hide IsHex, DigitValue, Value, ParseHex;
  }
}
