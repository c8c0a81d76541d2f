/** The delay loop of acpi.c over a counter that wraps around. */
module Timer {
  import opened Words

  const TICKS_PER_MS: nat := 3580
  /** The power-management timer runs at 3.579545 MHz (section 4.8.3.3 of the ACPI Specification 6.4). */
  const TICKS_PER_SECOND: nat := 3_579_545

  function Period(is24Bit: bool): (r: nat)
    ensures r > 0
  {
    if is24Bit then 0x100_0000 else TWO32
  }

  /** One step of the loop: what `elapsed` grows by between two readings. */
  function Gap(last: nat, current: nat, is24Bit: bool): nat
    requires last < Period(is24Bit) && current < Period(is24Bit)
  {
    if current < last then current + Period(is24Bit) - last else current - last
  }

  predicate Readable(readings: seq<nat>, is24Bit: bool) {
    forall k :: 0 <= k < |readings| ==> readings[k] < Period(is24Bit)
  }

  /** elapsed after the readings 1..n, the first being the start. */
  function Elapsed(readings: seq<nat>, n: nat, is24Bit: bool): nat
    requires n < |readings| && Readable(readings, is24Bit)
  {
    if n == 0 then 0 else Elapsed(readings, n - 1, is24Bit) + Gap(readings[n - 1], readings[n], is24Bit)
  }

  /** The readings are those of a free-running counter, at the true times of `ticks`. */
  ghost predicate ReadsCounter(readings: seq<nat>, ticks: seq<nat>, is24Bit: bool) {
    && |readings| == |ticks|
    && (forall k :: 0 <= k < |ticks| ==> readings[k] == ticks[k] % Period(is24Bit))
    && (forall k :: 0 < k < |ticks| ==> ticks[k - 1] <= ticks[k])
  }

  /** Consecutive reads up to read n are less than one period apart. */
  ghost predicate ReadOften(ticks: seq<nat>, n: nat, is24Bit: bool)
    requires n < |ticks|
  {
    forall k :: 0 < k <= n ==> ticks[k] - ticks[k - 1] < Period(is24Bit)
  }

  /** Whole periods that pass unnoticed between two reads. */
  function Missed(a: nat, b: nat, p: nat): nat
    requires a <= b && p > 0
  {
    (b - a) / p
  }

  lemma GapIsRemainder(a: nat, b: nat, is24Bit: bool)
    requires a <= b
    ensures var p := Period(is24Bit);
            Gap(a % p, b % p, is24Bit) + Missed(a, b, p) * p == b - a
            && (Missed(a, b, p) == 0 <==> b - a < p)
  {
    if is24Bit {
      GapIsRemainder24(a, b);
    } else {
      GapIsRemainder32(a, b);
    }
  }

  lemma GapIsRemainder24(a: nat, b: nat)
    requires a <= b
    ensures Gap(a % 0x100_0000, b % 0x100_0000, true) == (b - a) % 0x100_0000
  {
  }

  lemma GapIsRemainder32(a: nat, b: nat)
    requires a <= b
    ensures Gap(a % TWO32, b % TWO32, false) == (b - a) % TWO32
  {
  }

  /** elapsed never exceeds the true ticks since the start, and equals them exactly when no two
      consecutive reads are a period or more apart. */
  lemma {:induction false} ElapsedExact(readings: seq<nat>, ticks: seq<nat>, n: nat, is24Bit: bool)
    requires ReadsCounter(readings, ticks, is24Bit) && n < |ticks|
    ensures Readable(readings, is24Bit)
    ensures ticks[0] <= ticks[n] && Elapsed(readings, n, is24Bit) <= ticks[n] - ticks[0]
    ensures Elapsed(readings, n, is24Bit) == ticks[n] - ticks[0] <==> ReadOften(ticks, n, is24Bit)
    decreases n
  {
    CounterIsReadable(readings, ticks, is24Bit);
    if n > 0 {
      hide Gap, Missed, Period;
      ElapsedExact(readings, ticks, n - 1, is24Bit);
      StepExact(ticks[n - 1], ticks[n], is24Bit);
      OneMoreRead(ticks, n, is24Bit);
    }
  }

  lemma OneMoreRead(ticks: seq<nat>, n: nat, is24Bit: bool)
    requires 0 < n < |ticks|
    ensures ReadOften(ticks, n, is24Bit) <==>
            ReadOften(ticks, n - 1, is24Bit) && ticks[n] - ticks[n - 1] < Period(is24Bit)
  {
  }

  /** One gap counts at most the true difference, and counts it exactly if less than a period passed. */
  lemma StepExact(a: nat, b: nat, is24Bit: bool)
    requires a <= b
    ensures var p := Period(is24Bit);
            Gap(a % p, b % p, is24Bit) <= b - a && (Gap(a % p, b % p, is24Bit) == b - a <==> b - a < p)
  {
    GapIsRemainder(a, b, is24Bit);
    hide Gap;
    var p := Period(is24Bit);
    if Missed(a, b, p) > 0 {
      assert Missed(a, b, p) * p >= p;
    }
  }

  lemma CounterIsReadable(readings: seq<nat>, ticks: seq<nat>, is24Bit: bool)
    requires ReadsCounter(readings, ticks, is24Bit)
    ensures Readable(readings, is24Bit)
  {
  }

  /** The tick count asked for: a 64-bit product. */
  function TicksNeeded(ms: nat): nat { ms * TICKS_PER_MS % TWO64 }

  /** elapsed as the program keeps it, a 64-bit sum. */
  function Counted(readings: seq<nat>, n: nat, is24Bit: bool): nat
    requires n < |readings| && Readable(readings, is24Bit)
  {
    if n == 0 then 0 else (Counted(readings, n - 1, is24Bit) + Gap(readings[n - 1], readings[n], is24Bit)) % TWO64
  }

  /** The loop has not ended before reading n. */
  ghost predicate Waiting(readings: seq<nat>, n: nat, is24Bit: bool, ticks: nat)
    requires n < |readings| && Readable(readings, is24Bit)
  {
    forall k :: 0 <= k < n ==> Counted(readings, k, is24Bit) < ticks
  }

  /** acpi_mdelay, given the readings it will get; the delay ends at the first reading by which enough
      ticks have been counted. */
  method Mdelay(ms: nat, readings: seq<nat>, is24Bit: bool) returns (elapsed: nat, n: nat)
    requires readings != [] && Readable(readings, is24Bit)
    requires exists k :: 0 <= k < |readings| && Counted(readings, k, is24Bit) >= TicksNeeded(ms)
    ensures n < |readings| && elapsed == Counted(readings, n, is24Bit) && elapsed >= TicksNeeded(ms)
    ensures Waiting(readings, n, is24Bit, TicksNeeded(ms))
  {
    var ticksNeeded := ms * TICKS_PER_MS % TWO64;
    elapsed, n := 0, 0;
    var last := readings[0];
    while elapsed < ticksNeeded
      invariant 0 <= n < |readings| && last == readings[n] && elapsed == Counted(readings, n, is24Bit)
      invariant Waiting(readings, n, is24Bit, ticksNeeded)
      decreases |readings| - n
    {
      n := n + 1;
      var current := readings[n];
      if current < last {
        if is24Bit {
          elapsed := (elapsed + (current + 0x100_0000 - last)) % TWO64;
        } else {
          elapsed := (elapsed + (current + 0x1_0000_0000 - last)) % TWO64;
        }
      } else {
        elapsed := (elapsed + (current - last)) % TWO64;
      }
      last := current;
    }
  }

  lemma GapBound(last: nat, current: nat, is24Bit: bool)
    requires last < Period(is24Bit) && current < Period(is24Bit)
    ensures 0 <= Gap(last, current, is24Bit) < Period(is24Bit)
  {
  }

  /** The 64-bit sum never counts too much. */
  lemma {:induction false} CountedAtMost(readings: seq<nat>, n: nat, is24Bit: bool)
    requires n < |readings| && Readable(readings, is24Bit)
    ensures Counted(readings, n, is24Bit) <= Elapsed(readings, n, is24Bit)
  {
    if n > 0 {
      CountedAtMost(readings, n - 1, is24Bit);
      GapBound(readings[n - 1], readings[n], is24Bit);
      hide Gap;
    }
  }

  lemma {:induction false} CountedIsElapsed(readings: seq<nat>, n: nat, is24Bit: bool, ticks: nat)
    requires n < |readings| && Readable(readings, is24Bit) && Waiting(readings, n, is24Bit, ticks)
    requires ticks + Period(is24Bit) <= TWO64 + 1
    ensures Counted(readings, n, is24Bit) == Elapsed(readings, n, is24Bit)
  {
    hide Gap, Period;
    if n > 0 {
      CountedIsElapsed(readings, n - 1, is24Bit, ticks);
      GapBound(readings[n - 1], readings[n], is24Bit);
      assert Counted(readings, n - 1, is24Bit) < ticks;
    }
  }

  /** The counter t ticks after it stood at a. */
  lemma GapOf(a: nat, t: nat, is24Bit: bool)
    requires a < Period(is24Bit) && t < Period(is24Bit)
    ensures var b := if a + t < Period(is24Bit) then a + t else a + t - Period(is24Bit);
            b < Period(is24Bit) && Gap(a, b, is24Bit) == t
  {
  }

  lemma {:induction false} ElapsedOfPrefix(readings: seq<nat>, more: seq<nat>, n: nat, is24Bit: bool)
    requires n < |readings| && Readable(readings + more, is24Bit)
    ensures Readable(readings, is24Bit)
    ensures Elapsed(readings + more, n, is24Bit) == Elapsed(readings, n, is24Bit)
    ensures Counted(readings + more, n, is24Bit) == Counted(readings, n, is24Bit)
  {
    forall k | 0 <= k < |readings|
      ensures readings[k] < Period(is24Bit)
    {
      assert (readings + more)[k] == readings[k];
    }
    hide Period, Gap;
    if n > 0 {
      ElapsedOfPrefix(readings, more, n - 1, is24Bit);
    }
  }

  /** One more reading, t ticks later. */
  lemma OneMore(readings: seq<nat>, t: nat, is24Bit: bool) returns (longer: seq<nat>)
    requires readings != [] && Readable(readings, is24Bit) && t < Period(is24Bit)
    ensures |longer| == |readings| + 1 && longer[..|readings|] == readings && Readable(longer, is24Bit)
    ensures Elapsed(longer, |readings|, is24Bit) == Elapsed(readings, |readings| - 1, is24Bit) + t
    ensures Counted(longer, |readings|, is24Bit) == (Counted(readings, |readings| - 1, is24Bit) + t) % TWO64
    ensures forall k :: 0 <= k < |readings| ==> Counted(longer, k, is24Bit) == Counted(readings, k, is24Bit)
  {
    var a := readings[|readings| - 1];
    var b := if a + t < Period(is24Bit) then a + t else a + t - Period(is24Bit);
    GapOf(a, t, is24Bit);
    hide Gap, Period;
    longer := readings + [b];
    forall k | 0 <= k < |readings|
      ensures Counted(longer, k, is24Bit) == Counted(readings, k, is24Bit)
      ensures Elapsed(longer, k, is24Bit) == Elapsed(readings, k, is24Bit)
    {
      ElapsedOfPrefix(readings, [b], k, is24Bit);
    }
  }

  /** Readings by which exactly t ticks have been counted, and never more before. */
  lemma {:induction false} ReadingsFor(t: nat, is24Bit: bool) returns (readings: seq<nat>)
    requires t < TWO64
    ensures readings != [] && Readable(readings, is24Bit)
    ensures Counted(readings, |readings| - 1, is24Bit) == Elapsed(readings, |readings| - 1, is24Bit) == t
    ensures forall k :: 0 <= k < |readings| ==> Counted(readings, k, is24Bit) <= t
    decreases t
  {
    hide Gap, Period, Readable, Counted, Elapsed;
    NoTicks(is24Bit);
    if t == 0 {
      readings := [0];
    } else {
      var step := if t < Period(is24Bit) then t else Period(is24Bit) - 1;
      var before := ReadingsFor(t - step, is24Bit);
      readings := OneMore(before, step, is24Bit);
    }
  }

  lemma NoTicks(is24Bit: bool)
    ensures Period(is24Bit) > 1 && Readable([0], is24Bit)
    ensures Counted([0], 0, is24Bit) == Elapsed([0], 0, is24Bit) == 0
  {
  }

  /** The program counts the elapsed ticks rightly, whatever the readings, exactly if the ticks to wait for
      and one period together stay within 64 bits. */
  lemma CountExact(ms: nat, is24Bit: bool)
    ensures (forall readings: seq<nat>, n: nat ::
               n < |readings| && Readable(readings, is24Bit) && Waiting(readings, n, is24Bit, TicksNeeded(ms)) ==>
                 Counted(readings, n, is24Bit) == Elapsed(readings, n, is24Bit))
            <==> TicksNeeded(ms) + Period(is24Bit) <= TWO64 + 1
  {
    var ticks := TicksNeeded(ms);
    if ticks + Period(is24Bit) <= TWO64 + 1 {
      forall readings: seq<nat>, n: nat
        | n < |readings| && Readable(readings, is24Bit) && Waiting(readings, n, is24Bit, ticks)
        ensures Counted(readings, n, is24Bit) == Elapsed(readings, n, is24Bit)
      {
        CountedIsElapsed(readings, n, is24Bit, ticks);
      }
    } else {
      var before := ReadingsFor(ticks - 1, is24Bit);
      var readings := OneMore(before, Period(is24Bit) - 1, is24Bit);
      assert Waiting(readings, |before|, is24Bit, ticks);
      assert Counted(readings, |before|, is24Bit) < TWO64 <= Elapsed(readings, |before|, is24Bit);
    }
  }

  /** When the loop ends, ms milliseconds have passed, however slow the reads were, provided the product
      ms * 3580 does not wrap; if no read was late and the count fits, no tick was counted too little. */
  lemma DelayIsLongEnough(ms: nat, readings: seq<nat>, ticks: seq<nat>, n: nat, is24Bit: bool)
    requires ReadsCounter(readings, ticks, is24Bit) && n < |ticks| && Readable(readings, is24Bit)
    requires Counted(readings, n, is24Bit) >= TicksNeeded(ms) && Waiting(readings, n, is24Bit, TicksNeeded(ms))
    requires ms * TICKS_PER_MS < TWO64
    ensures (ticks[n] - ticks[0]) * 1000 >= ms * TICKS_PER_SECOND
    ensures ReadOften(ticks, n, is24Bit) && TicksNeeded(ms) + Period(is24Bit) <= TWO64 + 1 ==>
              Counted(readings, n, is24Bit) == ticks[n] - ticks[0]
  {
    hide Gap, Period, Readable, ReadOften, Elapsed, Counted, Waiting;
    ElapsedExact(readings, ticks, n, is24Bit);
    CountedAtMost(readings, n, is24Bit);
    if TicksNeeded(ms) + Period(is24Bit) <= TWO64 + 1 {
      CountedIsElapsed(readings, n, is24Bit, TicksNeeded(ms));
    }
    assert ms * TICKS_PER_MS * 1000 >= ms * TICKS_PER_SECOND;
  }

  /** Where no two reads are a whole period apart, the delay ends at the first reading by which 3580 ticks for each
      millisecond have passed: not before, and not a reading later. */
  lemma DelayEndsOnTime(ms: nat, readings: seq<nat>, ticks: seq<nat>, n: nat, is24Bit: bool)
    requires |readings| == |ticks| && n < |ticks| && (forall k :: 0 < k < |ticks| ==> ticks[k - 1] <= ticks[k])
    requires forall k :: 0 <= k < |ticks| ==> readings[k] == ticks[k] % (if is24Bit then 0x100_0000 else 0x1_0000_0000)
    requires forall k :: 0 < k <= n ==> ticks[k] - ticks[k - 1] < if is24Bit then 0x100_0000 else 0x1_0000_0000
    requires ms * 3580 + 0x1_0000_0000 <= TWO64 && Readable(readings, is24Bit)
    requires Counted(readings, n, is24Bit) >= TicksNeeded(ms) && Waiting(readings, n, is24Bit, TicksNeeded(ms))
    ensures ticks[n] - ticks[0] >= ms * 3580
    ensures forall k :: 0 <= k < n ==> ticks[k] - ticks[0] < ms * 3580
  {
    hide Gap, Readable, Elapsed, Counted;
    assert ReadsCounter(readings, ticks, is24Bit);
    forall k | 0 <= k <= n
      ensures ticks[0] <= ticks[k] && Counted(readings, k, is24Bit) == ticks[k] - ticks[0]
    {
      ElapsedExact(readings, ticks, k, is24Bit);
      CountedIsElapsed(readings, k, is24Bit, TicksNeeded(ms));
    }
  }

  /** The tick count asked for is enough for ms milliseconds exactly when the product does not wrap. */
  lemma TicksNeededExact(ms: nat)
    requires ms < TWO64
    ensures TicksNeeded(ms) * 1000 >= ms * TICKS_PER_SECOND <==> ms * TICKS_PER_MS < TWO64
  {
    if ms * TICKS_PER_MS >= TWO64 {
      assert TicksNeeded(ms) <= TWO64 - 1;
      assert TicksNeeded(ms) <= ms * TICKS_PER_MS - TWO64;
      WrappedTooFew(ms);
    }
  }

  /** After a wrap less than 2^64 ticks are asked for where at least 2^64 * 3579545 / 3580000 are due. */
  lemma WrappedTooFew(ms: nat)
    requires ms < TWO64 && ms * TICKS_PER_MS >= TWO64
    ensures TicksNeeded(ms) * 1000 < ms * TICKS_PER_SECOND
  {
    var t := ms * TICKS_PER_MS;
    var q, r := t / TWO64, t % TWO64;
    assert t == q * TWO64 + r && q >= 1;
  }
}
