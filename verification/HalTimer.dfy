/** Timer unit conversion in 64-bit arithmetic: when it is exact, what a deadline then guarantees, and when
    counter to nanoseconds to ticks gives the counter back. */
module HalTimer {
  import opened Arith
  import opened Bytes

  const GIGA: nat := 1_000_000_000

  function Wrap(n: nat): (r: nat)
    ensures r < TWO64 && (n < TWO64 ==> r == n) && (n >= TWO64 ==> r + TWO64 <= n)
  {
    n % TWO64
  }

  /** `hal_timer_ns_to_ticks_ceil` */
  function NsToTicks(ns: nat, hz: nat): (r: Option<nat>)
    ensures r.None? <==> hz == 0
    ensures r.Some? ==> (r.value == 0 <==> ns == 0)
  {
    if hz == 0 then None
    else if ns == 0 then Some(0)
    else
      var ticks := Wrap(Wrap(Quotient(ns, GIGA) * hz) + Quotient(Wrap(Wrap(ns % GIGA * hz) + (GIGA - 1)), GIGA));
      Some(if ticks == 0 then 1 else ticks)
  }

  /** `hal_timer_monotonic_ns` for a backend that has a monotonic clock. */
  function MonotonicNs(counter: nat, freq: nat): (r: Option<nat>)
    ensures r.None? <==> freq == 0
  {
    if freq == 0 then None
    else Some(Wrap(Wrap(Quotient(counter, freq) * GIGA) + Quotient(Wrap(counter % freq * GIGA), freq)))
  }

  /** The least number of periods of `1/hz` seconds that last at least `ns` nanoseconds. */
  function IdealTicks(ns: nat, hz: nat): nat { Quotient(ns * hz + (GIGA - 1), GIGA) }

  function IdealNs(counter: nat, freq: nat): nat
    requires freq > 0
  {
    Quotient(counter * GIGA, freq)
  }

  // ---------------------------------------------------------------- splitting a product

  /** Scaling whole units and remainder separately loses nothing. */
  lemma SplitScale(n: nat, unit: nat, scale: nat, carry: nat)
    requires unit > 0
    ensures Quotient(n * scale + carry, unit) == Quotient(n, unit) * scale + Quotient(n % unit * scale + carry, unit)
  {
    var q, r := Quotient(n, unit), n % unit;
    DivMod(n, unit);
    var low := Quotient(r * scale + carry, unit);
    QuotientBounds(r * scale + carry, unit, low);
    assert n * scale == q * scale * unit + r * scale by {
      assert n * scale == (q * unit + r) * scale;
      assert (q * unit + r) * scale == q * unit * scale + r * scale;
      assert q * unit * scale == q * scale * unit;
    }
    assert (q * scale + low) * unit == q * scale * unit + low * unit;
    assert (q * scale + low + 1) * unit == q * scale * unit + (low + 1) * unit;
    QuotientBounds(n * scale + carry, unit, q * scale + low);
  }

  /** Dropping at least `d` from the dividend lowers the quotient. */
  lemma QuotientDrops(small: nat, big: nat, d: nat)
    requires d > 0 && small + d <= big
    ensures Quotient(small, d) < Quotient(big, d)
  {
    var p, q := Quotient(small, d), Quotient(big, d);
    QuotientBounds(small, d, p);
    QuotientBounds(big, d, q);
    assert (p + 1) * d == p * d + d;
    if q <= p { MulMono(q + 1, p + 1, d); }
  }

  /** The wrapped sum of wrapped parts is the true sum exactly when neither the low dividend nor the sum overflows. */
  lemma WrappedSum(high: nat, x: nat, d: nat)
    requires 0 < d < TWO64
    ensures Wrap(Wrap(high) + Quotient(Wrap(x), d)) == high + Quotient(x, d)
            <==> x < TWO64 && high + Quotient(x, d) < TWO64
  {
    if x >= TWO64 {
      QuotientDrops(Wrap(x), x, d);
    }
  }

  // ------------------------------------------------------------------------- exactness

  lemma IdealPositive(ns: nat, hz: nat)
    requires ns > 0 && hz > 0
    ensures IdealTicks(ns, hz) >= 1
  {
    MulMono(1, ns, hz);
    QuotientMono(GIGA, ns * hz + (GIGA - 1), GIGA);
    QuotientUnique(GIGA, GIGA, 1, 0);
  }

  /** Wrapping before a further addition does not change the wrapped result. */
  lemma WrapTwice(a: nat, b: nat)
    ensures Wrap(Wrap(a) + b) == Wrap(a + b)
  {
    DivMod(a, TWO64);
    DivMod(a + b, TWO64);
    DivMod(Wrap(a) + b, TWO64);
    QuotientUnique(a + b, TWO64, a / TWO64 + (Wrap(a) + b) / TWO64, (Wrap(a) + b) % TWO64);
  }

  predicate TicksFit(ns: nat, hz: nat) { ns % GIGA * hz + (GIGA - 1) < TWO64 && IdealTicks(ns, hz) < TWO64 }

  predicate NsFits(counter: nat, freq: nat)
    requires freq > 0
  {
    counter % freq * GIGA < TWO64 && IdealNs(counter, freq) < TWO64
  }

  lemma LargeFraction(high: nat, x: nat)
    requires x >= TWO64
    ensures high + Quotient(x, GIGA) > 1
  {
    QuotientMono(2 * GIGA, x, GIGA);
    QuotientUnique(2 * GIGA, GIGA, 2, 0);
  }

  /** The tick count is the exact ceiling if and only if neither the fractional product nor the result overflows. */
  lemma TicksExact(ns: nat, hz: nat)
    requires 0 < ns < TWO64 && 0 < hz < TWO64
    ensures NsToTicks(ns, hz) == Some(IdealTicks(ns, hz)) <==> TicksFit(ns, hz)
  {
    hide Quotient, Wrap;
    var sec, x := Quotient(ns, GIGA), ns % GIGA * hz + (GIGA - 1);
    SplitScale(ns, GIGA, hz, GIGA - 1);
    WrappedSum(sec * hz, x, GIGA);
    WrapTwice(ns % GIGA * hz, GIGA - 1);
    IdealPositive(ns, hz);
    var ticks := Wrap(Wrap(sec * hz) + Quotient(Wrap(x), GIGA));
    if ticks == 0 && IdealTicks(ns, hz) == 1 {
      if x >= TWO64 { LargeFraction(sec * hz, x); }
    }
  }

  /** The nanosecond clock is the exact floor if and only if neither the fractional product nor the result overflows. */
  lemma NsExact(counter: nat, freq: nat)
    requires counter < TWO64 && 0 < freq < TWO64
    ensures MonotonicNs(counter, freq) == Some(IdealNs(counter, freq)) <==> NsFits(counter, freq)
  {
    hide Quotient, Wrap;
    SplitScale(counter, freq, GIGA, 0);
    WrappedSum(Quotient(counter, freq) * GIGA, counter % freq * GIGA, freq);
  }

  lemma FractionFits(product: nat, hz: nat)
    requires 0 < hz && hz * GIGA < TWO64 && product <= hz * GIGA - hz
    ensures product + (GIGA - 1) < TWO64
  {
    assert hz <= 18446744073;
    assert product <= hz * GIGA;
  }

  /** Up to about 18 GHz the fractional products never overflow, so only the size of the result matters. */
  lemma ModestFrequency(counter: nat, ns: nat, hz: nat)
    requires 0 < hz && hz * GIGA < TWO64
    ensures NsFits(counter, hz) <==> IdealNs(counter, hz) < TWO64
    ensures TicksFit(ns, hz) <==> IdealTicks(ns, hz) < TWO64
  {
    DivMod(counter, hz);
    DivMod(ns, GIGA);
    MulMono(counter % hz, hz - 1, GIGA);
    MulMono(ns % GIGA, GIGA - 1, hz);
    assert (hz - 1) * GIGA == hz * GIGA - GIGA;
    assert (GIGA - 1) * hz == hz * GIGA - hz;
    FractionFits(ns % GIGA * hz, hz);
  }

  // ---------------------------------------------------------------- what callers rely on

  /** A deadline is never early and less than one tick late: the ticks last at least `ns`, one fewer would not. */
  lemma DeadlineWithinATick(ns: nat, hz: nat)
    requires 0 < ns < TWO64 && 0 < hz < TWO64 && TicksFit(ns, hz)
    ensures var t := NsToTicks(ns, hz).value; ns * hz <= t * GIGA && (t - 1) * GIGA < ns * hz
  {
    hide Wrap, Quotient, NsToTicks;
    TicksExact(ns, hz);
    QuotientBounds(ns * hz + (GIGA - 1), GIGA, IdealTicks(ns, hz));
  }

  lemma TicksMonotone(a: nat, b: nat, hz: nat)
    requires a <= b < TWO64 && 0 < hz < TWO64 && TicksFit(a, hz) && TicksFit(b, hz)
    ensures NsToTicks(a, hz).value <= NsToTicks(b, hz).value
  {
    hide Wrap, Quotient, TicksFit;
    if a > 0 {
      TicksExact(a, hz);
      TicksExact(b, hz);
      MulMono(a, b, hz);
      QuotientMono(a * hz + (GIGA - 1), b * hz + (GIGA - 1), GIGA);
    }
  }

  lemma ClockMonotone(a: nat, b: nat, freq: nat)
    requires a <= b < TWO64 && 0 < freq < TWO64 && NsFits(a, freq) && NsFits(b, freq)
    ensures MonotonicNs(a, freq).value <= MonotonicNs(b, freq).value
  {
    hide Wrap, Quotient, NsFits, MonotonicNs;
    NsExact(a, freq);
    NsExact(b, freq);
    MulMono(a, b, GIGA);
    QuotientMono(a * GIGA, b * GIGA, freq);
  }

  lemma IdealRoundTrip(counter: nat, freq: nat)
    requires 0 < freq <= GIGA
    ensures IdealTicks(IdealNs(counter, freq), freq) == counter
  {
    hide Quotient;
    var ns := IdealNs(counter, freq);
    QuotientBounds(counter * GIGA, freq, ns);
    assert (ns + 1) * freq == ns * freq + freq;
    assert (counter + 1) * GIGA == counter * GIGA + GIGA;
    QuotientBounds(ns * freq + (GIGA - 1), GIGA, counter);
  }

  /** Fewer nanoseconds by a whole wrap convert to fewer ticks. */
  lemma WrapLosesTicks(small: nat, big: nat, freq: nat)
    requires 0 < freq && small + TWO64 <= big
    ensures IdealTicks(small, freq) < IdealTicks(big, freq)
  {
    hide Quotient;
    MulMono(small + TWO64, big, freq);
    MulMono(1, freq, TWO64);
    assert (small + TWO64) * freq == small * freq + TWO64 * freq;
    QuotientDrops(small * freq + (GIGA - 1), big * freq + (GIGA - 1), GIGA);
  }

  function RoundTrip(counter: nat, freq: nat): Option<nat>
  {
    match MonotonicNs(counter, freq)
    case None => None
    case Some(ns) => NsToTicks(ns, freq)
  }

  lemma SmallFrequency(freq: nat)
    requires 0 < freq <= GIGA
    ensures freq < TWO64 && freq * GIGA < TWO64
  {
    MulMono(freq, GIGA, GIGA);
  }

  lemma TicksOfWrapped(small: nat, counter: nat, freq: nat)
    requires 0 < freq <= GIGA && counter < TWO64 && small < TWO64 && IdealTicks(small, freq) <= counter
    ensures NsToTicks(small, freq) == Some(IdealTicks(small, freq))
  {
    hide Wrap, Quotient;
    SmallFrequency(freq);
    ModestFrequency(0, small, freq);
    if small > 0 { TicksExact(small, freq); } else { QuotientUnique(GIGA - 1, GIGA, 0, GIGA - 1); }
  }

  /** A clock reading that does not fit is short by at least one wrap. */
  lemma ClockWraps(counter: nat, freq: nat)
    requires 0 < freq && freq * GIGA < TWO64 && IdealNs(counter, freq) >= TWO64
    ensures var ns := MonotonicNs(counter, freq).value; ns < TWO64 && ns + TWO64 <= IdealNs(counter, freq)
  {
    hide Quotient;
    SplitScale(counter, freq, GIGA, 0);
    DivMod(counter, freq);
    MulMono(counter % freq, freq - 1, GIGA);
    assert (freq - 1) * GIGA == freq * GIGA - GIGA;
    var high, low := Quotient(counter, freq) * GIGA, Quotient(counter % freq * GIGA, freq);
    WrapTwice(high, low);
  }

  /** Up to 1 GHz, counter to nanoseconds to ticks gives back the counter exactly when the nanoseconds fit 64 bits. */
  lemma RoundTripExact(counter: nat, freq: nat)
    requires counter < TWO64 && 0 < freq <= GIGA
    ensures RoundTrip(counter, freq) == Some(counter) <==> IdealNs(counter, freq) < TWO64
  {
    hide Quotient, NsFits, NsToTicks, TicksFit, IdealTicks, Wrap;
    SmallFrequency(freq);
    ModestFrequency(counter, 0, freq);
    NsExact(counter, freq);
    IdealRoundTrip(counter, freq);
    var ns := MonotonicNs(counter, freq).value;
    if IdealNs(counter, freq) < TWO64 {
      TicksOfWrapped(ns, counter, freq);
    } else {
      ClockWraps(counter, freq);
      WrapLosesTicks(ns, IdealNs(counter, freq), freq);
      TicksOfWrapped(ns, counter, freq);
    }
  }

  /** Above 1 GHz the round trip already loses the first tick. */
  lemma FirstTickLost(freq: nat)
    requires GIGA < freq < TWO64
    ensures RoundTrip(1, freq) == Some(0)
  {
    QuotientUnique(1, freq, 0, 1);
    QuotientUnique(GIGA, freq, 0, GIGA);
    assert MonotonicNs(1, freq) == Some(0);
  }

  lemma FirstTickFits(freq: nat)
    requires GIGA < freq
    ensures NsFits(1, freq)
  {
    QuotientUnique(1, freq, 0, 1);
    QuotientUnique(GIGA, freq, 0, GIGA);
  }

  /** The round trip is faithful for all counters whose nanoseconds fit exactly for frequencies up to 1 GHz. */
  lemma RoundTripIff(freq: nat)
    requires 0 < freq < TWO64
    ensures (forall c: nat | c < TWO64 && NsFits(c, freq) :: RoundTrip(c, freq) == Some(c)) <==> freq <= GIGA
  {
    hide Quotient, RoundTrip;
    if freq <= GIGA {
      forall c: nat | c < TWO64 && NsFits(c, freq) ensures RoundTrip(c, freq) == Some(c) { RoundTripExact(c, freq); }
    } else {
      FirstTickLost(freq);
      FirstTickFits(freq);
    }
  }

  lemma WrapBelow(n: nat)
    ensures Wrap(n) <= n
  {
  }

  /** Wrapping never adds ticks. */
  lemma TicksNeverAbove(ns: nat, hz: nat)
    requires 0 < ns < TWO64 && 0 < hz < TWO64
    ensures NsToTicks(ns, hz).value <= IdealTicks(ns, hz)
  {
    hide Quotient, Wrap;
    var sec, x := Quotient(ns, GIGA), ns % GIGA * hz + (GIGA - 1);
    SplitScale(ns, GIGA, hz, GIGA - 1);
    WrapTwice(ns % GIGA * hz, GIGA - 1);
    WrapBelow(x);
    WrapBelow(sec * hz);
    QuotientMono(Wrap(x), x, GIGA);
    WrapBelow(Wrap(sec * hz) + Quotient(Wrap(x), GIGA));
    IdealPositive(ns, hz);
  }

  /** A deadline is early if and only if the fractional product or the result overflows. */
  lemma EarlyIffOverflow(ns: nat, hz: nat)
    requires 0 < ns < TWO64 && 0 < hz < TWO64
    ensures NsToTicks(ns, hz).value * GIGA < ns * hz <==> !TicksFit(ns, hz)
  {
    hide Wrap, Quotient, NsToTicks, TicksFit;
    TicksExact(ns, hz);
    TicksNeverAbove(ns, hz);
    QuotientBounds(ns * hz + (GIGA - 1), GIGA, IdealTicks(ns, hz));
  }

  /** Both failures occur at 2^35 Hz: one second minus a nanosecond ends early, and the clock misreads the last tick of
      its first second. */
  lemma OverflowHappens()
    ensures var hz := 0x8_0000_0000;
            && NsToTicks(GIGA - 1, hz).value * GIGA < (GIGA - 1) * hz
            && MonotonicNs(hz - 1, hz) != Some(IdealNs(hz - 1, hz))
  {
    hide NsToTicks, MonotonicNs, IdealNs, IdealTicks;
    var hz := 0x8_0000_0000;
    QuotientUnique(GIGA - 1, GIGA, 0, GIGA - 1);
    QuotientUnique(hz - 1, hz, 0, hz - 1);
    EarlyIffOverflow(GIGA - 1, hz);
    NsExact(hz - 1, hz);
  }
}
