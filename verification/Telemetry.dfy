/** The scheduler's telemetry arithmetic: saturating 64-bit ratios computed from whole and fractional parts,
    with exact bounds on the rounding. */
module Telemetry {
  import opened Bytes
  import opened Arith

  const U64_MAX: nat := TWO64 - 1
  const U32_MAX: nat := TWO32 - 1

  function Saturate(x: nat, max: nat): nat { if x > max then max else x }

  /** Saturating addition, written as the source writes it. */
  function SatAdd(a: nat, b: nat): (r: nat)
    requires U64(a) && U64(b)
    ensures r == Saturate(a + b, U64_MAX)
  {
    if U64_MAX - a < b then U64_MAX else a + b
  }

  // --------------------------------------------------------- hundredths of a ratio

  function Combine(whole: nat, frac: nat): (r: nat)
    ensures whole <= U64_MAX / 100 ==> r == Saturate(100 * whole + frac, U64_MAX)
    ensures whole > U64_MAX / 100 ==> r == U64_MAX
  {
    if whole > U64_MAX / 100 then U64_MAX
    else if U64_MAX - whole * 100 < frac then U64_MAX
    else whole * 100 + frac
  }

  /** The fractional hundredths; the divisor `b / 100` of the coarse branch is never zero. */
  function Fraction(rem: nat, b: nat): nat
    requires rem < b
  {
    if rem > U64_MAX / 100 then Quotient(rem, b / 100) else Quotient(rem * 100, b)
  }

  /** `(a / b) * 100 + ((a % b) * 100) / b`, the last term coarsened when its product would overflow. */
  function Hundredths(a: nat, b: nat): (r: nat)
    requires U64(a) && U64(b) && b > 0
  {
    Combine(a / b, Fraction(a % b, b))
  }

  /** No product of either branch exceeds 64 bits. */
  lemma NoOverflow(a: nat, b: nat)
    requires U64(a) && U64(b) && b > 0
    ensures a / b <= U64_MAX / 100 ==> U64(a / b * 100)
    ensures a % b <= U64_MAX / 100 ==> U64(a % b * 100)
    ensures a % b > U64_MAX / 100 ==> b / 100 > 0
  {
  }

  lemma SplitAlgebra(a: nat, b: nat, w: nat, r: nat, e: nat)
    requires a == w * b + r && e * b <= 100 * r < (e + 1) * b
    ensures (100 * w + e) * b <= 100 * a < (100 * w + e + 1) * b
  {
    assert (100 * w + e) * b == 100 * (w * b) + e * b;
    assert (100 * w + e + 1) * b == 100 * (w * b) + (e + 1) * b;
  }

  lemma SplitRatio(a: nat, b: nat, w: nat, r: nat)
    requires b > 0 && a == w * b + r
    ensures Quotient(100 * a, b) == 100 * w + Quotient(100 * r, b)
  {
    hide Quotient;
    var e := Quotient(100 * r, b);
    QuotientBounds(100 * r, b, e);
    SplitAlgebra(a, b, w, r, e);
    QuotientBounds(100 * a, b, 100 * w + e);
  }

  lemma CoarseLower(rem: nat, b: nat, q: nat, e: nat)
    requires 100 * q <= b && e * b <= 100 * rem
    ensures e * q <= rem
  {
    MulMono(100 * q, b, e);
    assert (100 * q) * e == 100 * (e * q) && b * e == e * b;
  }

  lemma CoarseUpper(rem: nat, b: nat, q: nat, e: nat)
    requires b < 100 * q + 100 && 100 * rem < (e + 1) * b && e + 1 <= q
    ensures rem < (e + 2) * q
  {
    MulMono(b, 100 * q + 100, e + 1);
    assert (100 * q + 100) * (e + 1) == 100 * (q * (e + 1) + (e + 1)) && b * (e + 1) == (e + 1) * b;
    assert (e + 2) * q == q * (e + 1) + q;
  }

  /** The coarse branch is off by at most one, and only upwards. */
  lemma CoarseBounds(rem: nat, b: nat)
    requires U64_MAX / 100 < rem < b && U64(b)
    ensures Quotient(100 * rem, b) <= Quotient(rem, b / 100) <= Quotient(100 * rem, b) + 1
  {
    var q, e := b / 100, Quotient(100 * rem, b);
    var p := Quotient(rem, q);
    assert 100 * q <= b < 100 * q + 100 && q >= 100;
    QuotientBounds(100 * rem, b, e);
    QuotientBounds(rem, q, p);
    if e >= 100 { MulMono(100, e, b); }
    CoarseLower(rem, b, q, e);
    CoarseUpper(rem, b, q, e);
    if p < e { MulMono(p + 1, e, q); }
    if p > e + 1 { MulMono(e + 2, p, q); }
  }

  /** The computed ratio is the saturated floor of 100 * a / b, or one more where the coarse branch was taken. */
  lemma HundredthsExact(a: nat, b: nat)
    requires U64(a) && U64(b) && b > 0
    ensures var exact, r := Quotient(100 * a, b), Hundredths(a, b);
            && (r == Saturate(exact, U64_MAX) || r == Saturate(exact + 1, U64_MAX))
            && (a % b <= U64_MAX / 100 ==> r == Saturate(exact, U64_MAX))
  {
    hide Combine, Quotient;
    DivMod(a, b);
    var whole: nat, rem: nat := a / b, a % b;
    SplitRatio(a, b, whole, rem);
    var e := Quotient(100 * rem, b);
    assert rem * 100 == 100 * rem;
    if rem > U64_MAX / 100 { CoarseBounds(rem, b); }
    assert Fraction(rem, b) == e || (rem > U64_MAX / 100 && Fraction(rem, b) == e + 1);
    assert whole > U64_MAX / 100 ==> 100 * whole > U64_MAX;
  }

  /** As stored in a 32-bit field. */
  function Hundredths32(a: nat, b: nat): nat
    requires U64(a) && U64(b) && b > 0
  {
    Saturate(Hundredths(a, b), U32_MAX)
  }

  /** `r` is the 32-bit saturated floor of 100 * a / b or of one hundredth more. */
  predicate NearRatio(r: nat, a: nat, b: nat)
    requires b > 0
  {
    r == Saturate(Quotient(100 * a, b), U32_MAX) || r == Saturate(Quotient(100 * a, b) + 1, U32_MAX)
  }

  /** The recorded value: never below the true ratio, at most one above it, saturated at 32 bits. */
  lemma RecordedExact(a: nat, b: nat)
    requires U64(a) && U64(b) && b > 0
    ensures NearRatio(Hundredths32(a, b), a, b)
    ensures a % b <= U64_MAX / 100 ==> Hundredths32(a, b) == Saturate(Quotient(100 * a, b), U32_MAX)
  {
    hide Hundredths;
    HundredthsExact(a, b);
  }

  /** What dividing by `b / 100` leaves over makes up for the remainder of `b` by 100. */
  predicate RoundsDown(rem: nat, b: nat)
    requires b >= 100
  {
    Quotient(rem, b / 100) * (b % 100) <= 100 * (rem % (b / 100))
  }

  /** Scaling the coarse division: `b` times its quotient against 100 times the remainder. */
  lemma CoarseProduct(rem: nat, b: nat, q: nat, c: nat, p: nat, t: nat)
    requires b == 100 * q + c && rem == p * q + t
    ensures p * b <= 100 * rem <==> p * c <= 100 * t
  {
    assert p * b == 100 * (p * q) + p * c;
  }

  /** The coarse branch gives the floor exactly when it rounds down. */
  lemma CoarseExact(rem: nat, b: nat)
    requires U64_MAX / 100 < rem < b && U64(b)
    ensures Quotient(rem, b / 100) == Quotient(100 * rem, b) <==> RoundsDown(rem, b)
  {
    var q, e := b / 100, Quotient(100 * rem, b);
    var p := Quotient(rem, q);
    CoarseBounds(rem, b);
    DivMod(rem, q);
    CoarseProduct(rem, b, q, b % 100, p, rem % q);
    QuotientBounds(100 * rem, b, e);
    assert (e + 1) * b == e * b + b;
  }

  /** Whether the recorded ratio of these inputs is the exact floor. */
  predicate ExactRatio(a: nat, b: nat)
    requires U64(a) && U64(b) && b > 0
  {
    Hundredths32(a, b) == Saturate(Quotient(100 * a, b), U32_MAX)
  }

  lemma BelowHundred(rem: nat, b: nat)
    requires rem < b
    ensures Quotient(100 * rem, b) < 100
  {
    QuotientBounds(100 * rem, b, Quotient(100 * rem, b));
    if Quotient(100 * rem, b) >= 100 { MulMono(100, Quotient(100 * rem, b), b); }
  }

  /** Only inputs whose remainder overflows take the coarse branch, and then nothing saturates. */
  lemma CoarseIsSmall(a: nat, b: nat)
    requires U64(a) && U64(b) && b > 0 && a % b > U64_MAX / 100
    ensures b >= 100 && a / b <= 100 && Hundredths32(a, b) == 100 * (a / b) + Fraction(a % b, b)
    ensures Quotient(100 * a, b) == 100 * (a / b) + Quotient(100 * (a % b), b) <= U32_MAX
  {
    hide Quotient;
    DivMod(a, b);
    var w: nat, rem: nat := a / b, a % b;
    if w > 100 { MulMono(101, w, b); }
    SplitRatio(a, b, w, rem);
    CoarseBounds(rem, b);
    BelowHundred(rem, b);
  }

  /** The recorded ratio is the exact floor if and only if the fine branch ran or the coarse one rounds down. */
  lemma ExactRatioIff(a: nat, b: nat)
    requires U64(a) && U64(b) && b > 0
    ensures ExactRatio(a, b) <==> a % b <= U64_MAX / 100 || (b >= 100 && RoundsDown(a % b, b))
  {
    hide Quotient, Hundredths32, RoundsDown;
    RecordedExact(a, b);
    if a % b > U64_MAX / 100 {
      CoarseIsSmall(a, b);
      CoarseExact(a % b, b);
    }
  }

  lemma EvenDivisor(rem: nat, b: nat)
    requires b >= 100 && b % 100 == 0
    ensures RoundsDown(rem, b)
  {
    assert Quotient(rem, b / 100) * (b % 100) == 0;
  }

  lemma JustBelow(b: nat)
    requires U64(b) && b % 100 != 0 && b - 1 > U64_MAX / 100
    ensures (b - 1) % b == b - 1 && !RoundsDown(b - 1, b)
  {
    var q, c := b / 100, b % 100;
    QuotientUnique(b - 1, b, 0, b - 1);
    assert q > 100 && b - 1 == 100 * q + (c - 1);
    QuotientUnique(b - 1, q, 100, c - 1);
  }

  lemma InexactIsOneMore(a: nat, b: nat)
    requires U64(a) && U64(b) && b > 0 && !ExactRatio(a, b) && Quotient(100 * a, b) < U32_MAX
    ensures Hundredths32(a, b) == Quotient(100 * a, b) + 1
  {
    hide Hundredths32, Quotient;
    RecordedExact(a, b);
  }

  /** A divisor gives the exact floor for every dividend if and only if it is a multiple of 100 or small enough never to
      take the coarse branch; any other one fails for the dividend just below it. */
  lemma ExactDivisorIff(b: nat)
    requires U64(b) && b > 0
    ensures (forall a: nat | U64(a) :: ExactRatio(a, b)) <==> b % 100 == 0 || b - 1 <= U64_MAX / 100
    ensures b % 100 != 0 && b - 1 > U64_MAX / 100 ==> Hundredths32(b - 1, b) == Quotient(100 * (b - 1), b) + 1
  {
    hide Quotient, ExactRatio, Hundredths32;
    if b % 100 == 0 || b - 1 <= U64_MAX / 100 {
      forall a: nat | U64(a) ensures ExactRatio(a, b) {
        ExactRatioIff(a, b);
        DivMod(a, b);
        if a % b > U64_MAX / 100 { EvenDivisor(a % b, b); }
      }
    } else {
      JustBelow(b);
      ExactRatioIff(b - 1, b);
      RecordedExact(b - 1, b);
      CoarseIsSmall(b - 1, b);
      BelowHundred(b - 1, b);
      InexactIsOneMore(b - 1, b);
    }
  }

  /** One too many is recorded for the largest divisor and the dividend just below it. */
  lemma RatioRoundedUp()
    ensures Hundredths32(U64_MAX - 1, U64_MAX) == Quotient(100 * (U64_MAX - 1), U64_MAX) + 1
  {
    hide Quotient, Hundredths32;
    ExactDivisorIff(U64_MAX);
  }

  // ------------------------------------------------------------ instruction estimate

  const DEFAULT_IPC := 50

  function SafeIpc(ipc: nat): (r: nat)
    ensures r > 0
  {
    if ipc != 0 then ipc else DEFAULT_IPC
  }

  /** `calculate_baseline_ipc`: every tick count maps into 10 .. 300. */
  function BaselineIpc(ticks: nat): (ipc: nat)
    requires U64(ticks)
    ensures 10 <= ipc <= 300
  {
    if ticks == 0 then DEFAULT_IPC
    else
      var ipc := 10000 / ticks % TWO32;
      if ipc > 300 then 300 else if ipc < 10 then 10 else ipc
  }

  /** What the two calibration registers can hold: untouched, or a baseline. */
  predicate Calibrated(ipc: nat) { ipc == 0 || 10 <= ipc <= 300 }

  /** The blend chosen by the predicted complexity. */
  function ActiveIpc(complexity: nat, alu: nat, mem: nat): (r: nat)
    requires Calibrated(alu) && Calibrated(mem)
    ensures 10 <= r <= 300
  {
    if complexity == 2 then SafeIpc(mem)
    else if complexity == 1 then (SafeIpc(alu) + SafeIpc(mem)) / 2
    else SafeIpc(alu)
  }

  /** The baseline is how often the tick count goes into 10000, cut to 10 and 300; no ticks give 50. */
  lemma BaselineMeaning(ticks: nat)
    requires U64(ticks)
    ensures ticks == 0 ==> BaselineIpc(ticks) == 50
    ensures ticks > 0 ==>
      var r := BaselineIpc(ticks);
      && (10 < r < 300 ==> r * ticks <= 10000 < (r + 1) * ticks)
      && (r == 300 <==> 300 * ticks <= 10000) && (r == 10 <==> 10000 < 11 * ticks)
  {
    if ticks > 0 {
      var q := Quotient(10000, ticks);
      QuotientBounds(10000, ticks, q);
      MulMono(1, ticks, q);
      assert ticks * q == q * ticks && q % TWO32 == q;
      if q >= 300 { MulMono(300, q, ticks); } else { MulMono(q + 1, 300, ticks); }
      if q >= 11 { MulMono(11, q, ticks); } else { MulMono(q + 1, 11, ticks); }
    }
  }

  /** A predicted class of 2 takes the memory rate, 1 the average of both rates rounded down, anything else the
      arithmetic rate, where a rate never calibrated counts as 50. */
  lemma ActiveMeaning(complexity: nat, alu: nat, mem: nat)
    requires Calibrated(alu) && Calibrated(mem)
    ensures var a, m, r := if alu == 0 then 50 else alu, if mem == 0 then 50 else mem, ActiveIpc(complexity, alu, mem);
            if complexity == 2 then r == m else if complexity == 1 then 2 * r <= a + m < 2 * r + 2 else r == a
  {
    assert var t := SafeIpc(alu) + SafeIpc(mem); 2 * (t / 2) <= t < 2 * (t / 2) + 2;
  }

  lemma SatMulFits(a: nat, b: nat)
    requires b > 0
    ensures a <= U64_MAX / b <==> a * b <= U64_MAX
  {
    var q := Quotient(U64_MAX, b);
    QuotientBounds(U64_MAX, b, q);
    if a <= q { MulMono(a, q, b); } else { MulMono(q + 1, a, b); }
  }

  function SatMul(a: nat, b: nat): (r: nat)
    requires U64(a) && U64(b) && b > 0
    ensures U64(r)
  {
    if a > U64_MAX / b then U64_MAX else (SatMulFits(a, b); a * b)
  }

  /** Cycles of a slice at `multiplier` cycles per millisecond. */
  lemma SliceCycles(ms: nat, multiplier: nat)
    requires U64(ms) && U64(multiplier) && multiplier > 0
    ensures SatMul(ms, multiplier) == Saturate(ms * multiplier, U64_MAX)
  {
    SatMulFits(ms, multiplier);
  }

  function Estimate(cycles: nat, ipc: nat): (r: nat)
    requires U64(cycles) && 0 < ipc < TWO32
    ensures U64(r)
  {
    var whole, rem := cycles / 100, cycles % 100;
    if whole > U64_MAX / ipc then U64_MAX
    else
      SatMulFits(whole, ipc);
      var part1, part2 := whole * ipc, rem * ipc / 100;
      if U64_MAX - part1 < part2 then U64_MAX else part1 + part2
  }

  function ExactEstimate(cycles: nat, ipc: nat): nat { Saturate(cycles * ipc / 100, U64_MAX) }

  /** The estimate is exactly the saturated floor of cycles * ipc / 100, for every non-zero 32-bit ipc. */
  lemma EstimateExact(cycles: nat, ipc: nat)
    requires U64(cycles) && 0 < ipc < TWO32
    ensures Estimate(cycles, ipc) == ExactEstimate(cycles, ipc)
    ensures U64(cycles % 100 * ipc)
  {
    var w, r := cycles / 100, cycles % 100;
    SatMulFits(w, ipc);
    assert cycles == 100 * w + r;
    assert cycles * ipc == 100 * (w * ipc) + r * ipc;
    assert cycles * ipc / 100 == w * ipc + r * ipc / 100;
    MulMono(r, 99, ipc);
  }

  // -------------------------------------------------------------------- the context

  datatype PmcSample = PmcSample(available: bool, cycles: nat, instructions: nat)

  function Sum(s: seq<nat>): nat {
    if s == [] then 0 else Sum(s[..|s| - 1]) + s[|s| - 1]
  }

  /** The class of the average of ten samples. */
  function Complexity(window: seq<nat>): nat {
    var avg := Sum(window) / 10;
    if avg > 200 then 2 else if avg > 100 then 1 else 0
  }

  /** The class as thresholds on the sum of the ten samples. */
  lemma ComplexityThresholds(window: seq<nat>)
    ensures Complexity(window) == 2 <==> Sum(window) >= 2010
    ensures Complexity(window) == 1 <==> 1010 <= Sum(window) < 2010
    ensures Complexity(window) == 0 <==> Sum(window) < 1010
  {
    var t := Sum(window);
    assert 10 * (t / 10) <= t < 10 * (t / 10) + 10;
  }

  class AiContext {
    var totalCycles: nat
    var totalInstructions: nat
    var currentCpi: nat
    const window: array<nat>
    var windowIndex: nat
    var predictedComplexity: nat
    var cpuUtilPct: nat
    var contextSwitches: nat
    var runQueueDepth: nat

    ghost predicate Valid()
      reads this
    {
      window.Length == 10 && U64(totalCycles) && U64(totalInstructions) && windowIndex < 10
    }

    constructor ()
      ensures Valid() && totalCycles == 0 && totalInstructions == 0 && windowIndex == 0 && predictedComplexity == 0
      ensures forall i :: 0 <= i < 10 ==> window[i] == 0
    {
      totalCycles, totalInstructions, currentCpi, windowIndex, predictedComplexity := 0, 0, 0, 0, 0;
      cpuUtilPct, contextSwitches, runQueueDepth := 0, 0, 0;
      window := new nat[10](_ => 0);
    }

    /** `ai_sched_update_telemetry` */
    method UpdateTelemetry(cycles: nat, inst: nat)
      requires Valid() && U64(cycles) && U64(inst)
      modifies this`totalCycles, this`totalInstructions, this`currentCpi, this`windowIndex, window
      ensures Valid()
      ensures totalCycles == Saturate(old(totalCycles) + cycles, U64_MAX)
      ensures totalInstructions == Saturate(old(totalInstructions) + inst, U64_MAX)
      ensures inst == 0 ==>
        currentCpi == old(currentCpi) && window[..] == old(window[..]) && windowIndex == old(windowIndex)
      ensures inst != 0 ==>
        && NearRatio(currentCpi, cycles, inst)
        && window[..] == old(window[..])[old(windowIndex) := currentCpi] && windowIndex == (old(windowIndex) + 1) % 10
    {
      hide NearRatio, Hundredths32;
      totalCycles := SatAdd(totalCycles, cycles);
      totalInstructions := SatAdd(totalInstructions, inst);
      if inst != 0 {
        RecordedExact(cycles, inst);
        currentCpi := Hundredths32(cycles, inst);
        window[windowIndex % 10] := currentCpi;
        windowIndex := (windowIndex + 1) % 10;
      }
    }

    /** `ai_sched_predict_and_scale`: classify the average of the last ten samples. */
    method PredictAndScale()
      requires Valid()
      modifies this`predictedComplexity
      ensures predictedComplexity == Complexity(window[..])
    {
      var sum := 0;
      for i := 0 to 10
        invariant sum == Sum(window[..i])
      {
        assert window[..i + 1][..i] == window[..i];
        sum := sum + window[i];
      }
      assert window[..10] == window[..];
      var avg := sum / 10;
      predictedComplexity := if avg > 200 then 2 else if avg > 100 then 1 else 0;
    }

    /** `ai_sched_collect_sample`: counters when the hardware has them, otherwise the calibrated estimate. */
    method CollectSample(sample: PmcSample, timeSliceMs: nat, cpuTime: nat, depth: nat, switches: nat,
                         multiplier: nat, alu: nat, mem: nat)
      returns (ghost cycles: nat, ghost inst: nat)
      requires Valid() && U64(timeSliceMs) && U64(cpuTime) && U64(multiplier) && multiplier > 0
      requires U64(sample.cycles) && U64(sample.instructions) && Calibrated(alu) && Calibrated(mem)
      modifies this, window
      ensures Valid() && U64(cycles) && U64(inst)
      ensures if sample.available && sample.instructions > 0 then cycles == sample.cycles && inst == sample.instructions
              else cycles == Saturate(timeSliceMs * multiplier, U64_MAX) &&
                   inst == ExactEstimate(cycles, ActiveIpc(old(predictedComplexity), alu, mem))
      ensures totalCycles == Saturate(old(totalCycles) + cycles, U64_MAX)
      ensures totalInstructions == Saturate(old(totalInstructions) + inst, U64_MAX)
      ensures inst == 0 ==>
        currentCpi == old(currentCpi) && window[..] == old(window[..]) && windowIndex == old(windowIndex)
      ensures inst != 0 ==>
        && NearRatio(currentCpi, cycles, inst)
        && window[..] == old(window[..])[old(windowIndex) := currentCpi] && windowIndex == (old(windowIndex) + 1) % 10
      ensures NearRatio(cpuUtilPct, cpuTime, if timeSliceMs == 0 then 1 else timeSliceMs)
      ensures contextSwitches == switches && runQueueDepth == depth && predictedComplexity == Complexity(window[..])
    {
      hide NearRatio, ExactEstimate, Estimate, Hundredths32, SatMul;
      var c, n := sample.cycles, sample.instructions;
      if !(sample.available && sample.instructions > 0) {
        SliceCycles(timeSliceMs, multiplier);
        c := SatMul(timeSliceMs, multiplier);
        var ipc := ActiveIpc(predictedComplexity, alu, mem);
        EstimateExact(c, ipc);
        n := Estimate(c, ipc);
      }
      cycles, inst := c, n;
      UpdateTelemetry(c, n);
      contextSwitches, runQueueDepth := switches, depth;
      var divisor := if timeSliceMs == 0 then 1 else timeSliceMs;
      RecordedExact(cpuTime, divisor);
      cpuUtilPct := Hundredths32(cpuTime, divisor);
      PredictAndScale();
    }
  }
}
