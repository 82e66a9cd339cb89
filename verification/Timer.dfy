/** The interval timer: counting ticks, choosing a frequency, and sleeping. */
module Timer {
  import opened Ram

  /** Input clock of the chip in Hz. */
  const CLOCK: nat := 1193182

  function DivisorOf(frequency: word): nat
    requires frequency > 0
  {
    CLOCK / frequency
  }

  /** How many ticks a sleep waits for: the 32-bit product of frequency and milliseconds, by 1000. */
  function TicksFor(frequency: word, ms: word): nat { frequency * ms % WORD_MOD / 1000 }

  lemma Floors(frequency: word, ms: word)
    requires frequency > 0
    ensures CLOCK == frequency * DivisorOf(frequency) + CLOCK % frequency && 0 <= CLOCK % frequency < frequency
    ensures frequency * ms < WORD_MOD ==>
              frequency * ms == 1000 * TicksFor(frequency, ms) + frequency * ms % 1000
  {
    DivMod(CLOCK, frequency);
    DivMod(frequency * ms, 1000);
    if frequency * ms < WORD_MOD {
      Unwrapped(frequency * ms);
    }
  }

  lemma DivMod(n: int, b: int)
    requires b > 0
    ensures n == b * (n / b) + n % b && 0 <= n % b < b
  {
  }

  lemma Unwrapped(n: int)
    requires 0 <= n < WORD_MOD
    ensures n % WORD_MOD == n
  {
  }

  lemma Below(a: nat, a': nat, b: nat)
    requires a <= a'
    ensures a * b <= a' * b
  {
  }

  lemma Expand(f: int, d: int, r: int, ms: int, n: int, q: int)
    requires f * ms == 1000 * n + q
    ensures (f * d + r) * ms - 1000 * n * d == r * ms + q * d
  {
    assert (f * d + r) * ms == f * d * ms + r * ms;
    assert f * d * ms == (f * ms) * d;
    assert (1000 * n + q) * d == 1000 * n * d + q * d;
  }

  /** What the chip is given of the quotient: 16 bits. */
  function RegisterOf(frequency: word): nat
    requires frequency > 0
  {
    DivisorOf(frequency) % 0x1_0000
  }

  lemma Quotients(frequency: word, ms: word)
    requires frequency > 0 && frequency * ms < WORD_MOD
    ensures var d, n := DivisorOf(frequency), TicksFor(frequency, ms);
            && CLOCK * ms - 1000 * n * d == CLOCK % frequency * ms + frequency * ms % 1000 * d
            && 0 <= CLOCK * ms - 1000 * n * d <= ms * (frequency - 1) + 999 * d
  {
    var d, n, r, q := DivisorOf(frequency), TicksFor(frequency, ms), CLOCK % frequency, frequency * ms % 1000;
    Floors(frequency, ms);
    Expand(frequency, d, r, ms, n, q);
    Below(r, frequency - 1, ms);
    Below(q, 999, d);
    Below(0, r, ms);
    Below(0, q, d);
  }

  /** The chip has the whole quotient, and one that divides, exactly from 19 Hz up to its own clock. */
  lemma RegisterIff(frequency: word)
    requires frequency > 0
    ensures RegisterOf(frequency) == DivisorOf(frequency) >= 1 <==> 19 <= frequency <= CLOCK
  {
    DivisorFitsIff(frequency);
    ZeroQuotientIff(CLOCK, frequency);
  }

  lemma ZeroQuotientIff(n: nat, b: nat)
    requires b > 0
    ensures 0 <= n / b && (n / b == 0 <==> n < b)
  {
  }

  /** At these frequencies, the time that the ticks waited for take at the chip falls short of the time asked
      for, in clock periods of a millisecond, exactly by the remainders of the two divisions. */
  lemma SleepAccuracy(frequency: word, ms: word)
    requires 19 <= frequency <= CLOCK && frequency * ms < WORD_MOD
    ensures var d, n := RegisterOf(frequency), TicksFor(frequency, ms);
            && d >= 1
            && CLOCK * ms - 1000 * n * d == CLOCK % frequency * ms + frequency * ms % 1000 * d
            && 0 <= CLOCK * ms - 1000 * n * d <= ms * (frequency - 1) + 999 * d
  {
    RegisterIff(frequency);
    Quotients(frequency, ms);
  }

  /** At 18 Hz the chip divides by 751 and not by 66287, and a second's sleep is over long before. */
  lemma TooSlow()
    ensures DivisorOf(18) == 66287 && RegisterOf(18) == 751 && TicksFor(18, 1000) == 18
    ensures 1000 * TicksFor(18, 1000) * RegisterOf(18) < CLOCK * 1000 / 88
  {
  }

  /** The 16-bit divisor of the chip holds the quotient exactly from 19 Hz on. */
  lemma DivisorFitsIff(frequency: word)
    requires frequency > 0
    ensures RegisterOf(frequency) == DivisorOf(frequency) <==> frequency >= 19
  {
    var d := DivisorOf(frequency);
    Floors(frequency, 0);
    if frequency >= 19 {
      Below(19, frequency, d);
    } else {
      Below(frequency, 18, d);
    }
  }

  lemma ModRemains(n: nat)
    ensures (n % 0x1_0000 - n) % 0x1_0000 == 0
  {
  }

  /** The product of frequency and time wraps round exactly when it does not fit 32 bits, and then the
      sleep is shorter than asked for by at least one full turn of the product. */
  lemma TicksForIff(frequency: word, ms: word)
    ensures TicksFor(frequency, ms) == frequency * ms / 1000 <==> frequency * ms < WORD_MOD
    ensures frequency * ms >= WORD_MOD ==> TicksFor(frequency, ms) + WORD_MOD / 1000 <= frequency * ms / 1000
  {
    var n := frequency * ms;
    assert 0 <= n by {
      Below(0, frequency, ms);
    }
    WrappedQuotient(n);
  }

  lemma WrappedQuotient(n: nat)
    ensures n % WORD_MOD / 1000 == n / 1000 <==> n < WORD_MOD
    ensures n >= WORD_MOD ==> n % WORD_MOD / 1000 + WORD_MOD / 1000 <= n / 1000
  {
    if n < WORD_MOD {
      Unwrapped(n);
    } else {
      DivMod(n, WORD_MOD);
      var r := n % WORD_MOD;
      DivMod(r, 1000);
      DivMod(n, 1000);
      assert r + WORD_MOD <= n;
    }
  }

  function Sum(s: seq<nat>): nat {
    if s == [] then 0 else Sum(s[..|s| - 1]) + s[|s| - 1]
  }

  lemma {:induction false} SumGrows(s: seq<nat>, n: nat)
    requires n <= |s|
    ensures Sum(s[..n]) <= Sum(s)
    decreases |s|
  {
    if n == |s| {
      assert s[..n] == s;
    } else {
      SumGrows(s[..|s| - 1], n);
      assert s[..|s| - 1][..n] == s[..n];
    }
  }

  /** The counter after the interrupts that came before check n. */
  function CountAt(start: word, arrivals: seq<nat>, n: nat): word
    requires n <= |arrivals|
  {
    (start + Sum(arrivals[..n])) % WORD_MOD
  }

  lemma StartCount(start: word, arrivals: seq<nat>)
    ensures CountAt(start, arrivals, 0) == start
  {
    assert arrivals[..0] == [];
    Unwrapped(start);
  }

  lemma SumNext(s: seq<nat>, n: nat)
    requires n < |s|
    ensures Sum(s[..n + 1]) == Sum(s[..n]) + s[n]
  {
    assert s[..n + 1][..n] == s[..n];
  }

  /** A sleep that starts at this count ends at check n. */
  ghost predicate WakesAt(start: word, arrivals: seq<nat>, wait: nat, n: nat) {
    && n <= |arrivals| && CountAt(start, arrivals, n) >= (start + wait) % WORD_MOD
    && forall m | 0 <= m < n :: CountAt(start, arrivals, m) < (start + wait) % WORD_MOD
  }

  /** Where nothing wraps round, a sleep ends at the first check with enough ticks. */
  lemma WakesOnTime(start: word, arrivals: seq<nat>, wait: nat, n: nat)
    requires n <= |arrivals| && start + wait < WORD_MOD && start + Sum(arrivals[..n]) < WORD_MOD
    ensures WakesAt(start, arrivals, wait, n) <==>
            Sum(arrivals[..n]) >= wait && forall m | 0 <= m < n :: Sum(arrivals[..m]) < wait
  {
    forall m | 0 <= m <= n
      ensures CountAt(start, arrivals, m) == start + Sum(arrivals[..m])
    {
      SumGrows(arrivals[..n], m);
      assert arrivals[..n][..m] == arrivals[..m];
    }
    forall m | 0 <= m < n
      ensures CountAt(start, arrivals, m) < (start + wait) % WORD_MOD <==> Sum(arrivals[..m]) < wait
    {
    }
  }

  /** A sleep ends at its first check exactly when it has nothing to wait for or its target wraps round. */
  lemma WakesAtOnceIff(start: word, arrivals: seq<nat>, wait: nat)
    requires wait < WORD_MOD
    ensures WakesAt(start, arrivals, wait, 0) <==> wait == 0 || start + wait >= WORD_MOD
  {
    StartCount(start, arrivals);
    if start + wait >= WORD_MOD {
      assert (start + wait) % WORD_MOD == start + wait - WORD_MOD;
    } else {
      Unwrapped(start + wait);
    }
  }

  class Timer {
    var ticks: word
    var tickHandler: word
    var freqHz: word
    var divisor: nat
    ghost var calls: seq<word>

    constructor ()
      ensures ticks == 0 && tickHandler == 0 && freqHz == 100 && calls == []
      ensures divisor == DivisorOf(freqHz) == 11931
    {
      ticks, tickHandler, freqHz, calls := 0, 0, 100, [];
      divisor := CLOCK / 100 % 0x1_0000;
    }

    method InterruptHandler()
      modifies this`ticks, this`calls
      ensures ticks == (old(ticks) + 1) % WORD_MOD
      ensures calls == old(calls) + if tickHandler != 0 then [tickHandler] else []
    {
      ticks := (ticks + 1) % WORD_MOD;
      if tickHandler != 0 {
        calls := calls + [tickHandler];
      }
    }

    method SetFrequency(frequency: word)
      requires frequency > 0
      modifies this`freqHz, this`divisor
      ensures freqHz == frequency && divisor < 0x1_0000
      ensures (divisor - DivisorOf(frequency)) % 0x1_0000 == 0
      ensures divisor == RegisterOf(frequency) && (divisor == DivisorOf(frequency) <==> frequency >= 19)
    {
      DivisorFitsIff(frequency);
      ModRemains(DivisorOf(frequency));
      freqHz := frequency;
      divisor := CLOCK / frequency % 0x1_0000;
    }

    /** arrivals[i] interrupts come between checks i and i + 1. */
    method Sleep(ms: word, arrivals: seq<nat>) returns (n: nat, woke: bool)
      modifies this`ticks, this`calls
      ensures n <= |arrivals| && ticks == CountAt(old(ticks), arrivals, n)
      ensures woke ==> WakesAt(old(ticks), arrivals, TicksFor(freqHz, ms), n)
      ensures !woke ==> n == |arrivals|
                        && forall m | 0 <= m <= n :: !WakesAt(old(ticks), arrivals, TicksFor(freqHz, ms), m)
    {
      var start := ticks;
      var target := (start + TicksFor(freqHz, ms)) % WORD_MOD;
      n := 0;
      StartCount(start, arrivals);
      while ticks < target
        invariant n <= |arrivals| && ticks == CountAt(start, arrivals, n)
        invariant forall m | 0 <= m < n :: CountAt(start, arrivals, m) < target
        decreases |arrivals| - n
      {
        if n == |arrivals| {
          return n, false;
        }
        SumNext(arrivals, n);
        Arrive(arrivals[n], start + Sum(arrivals[..n]));
        n := n + 1;
      }
      woke := true;
    }

    /** k interrupts. */
    method Arrive(k: nat, ghost total: nat)
      requires ticks == total % WORD_MOD
      modifies this`ticks, this`calls
      ensures ticks == (total + k) % WORD_MOD
    {
      for i := 0 to k
        invariant ticks == (total + i) % WORD_MOD
      {
        InterruptHandler();
        OneMore(total + i);
      }
    }
  }

  lemma OneMore(n: nat)
    ensures (n % WORD_MOD + 1) % WORD_MOD == (n + 1) % WORD_MOD
  {
  }
}
