/** Frame budget arithmetic and drop counting. */
module FrameTimer {
  import opened Common

  const SECOND_MICROS: nat := 1_000_000

  /** `new`: the budget in microseconds. */
  function BudgetFor(targetFps: nat): nat {
    if targetFps == 0 then 16_667 else SECOND_MICROS / targetFps
  }

  /** `target_fps`. */
  function RateOf(budgetMicros: nat): nat {
    var safe := if budgetMicros == 0 then 1 else budgetMicros;
    var rate := SECOND_MICROS / safe;
    if rate < 1 then 1 else rate
  }

  lemma QuotientBounds(n: nat, d: nat)
    requires d > 0
    ensures n / d * d <= n < n / d * d + d
  {
  }

  lemma QuotientAtLeast(n: nat, d: nat, q: nat)
    requires d > 0
    ensures n / d >= q <==> q * d <= n
  {
    QuotientBounds(n, d);
    var p := n / d;
    if p >= q {
      assert q * d <= p * d;
    } else {
      assert (p + 1) * d <= q * d;
    }
  }

  lemma QuotientIs(n: nat, d: nat, q: nat)
    requires d > 0 && q * d <= n < q * d + d
    ensures n / d == q
  {
    QuotientAtLeast(n, d, q);
    QuotientAtLeast(n, d, q + 1);
    assert (q + 1) * d == q * d + d;
  }

  /** The budget is the whole number of microseconds that fits `n` times into a second. */
  lemma BudgetFits(n: nat)
    ensures n >= 1 ==> BudgetFor(n) * n <= 1_000_000 < (BudgetFor(n) + 1) * n
    ensures n == 0 ==> BudgetFor(n) == 16_667
  {
    if n >= 1 {
      QuotientBounds(SECOND_MICROS, n);
      assert (BudgetFor(n) + 1) * n == BudgetFor(n) * n + n;
    }
  }

  /**
   * The reported rate never falls short of the requested one, and asking for
   * the reported rate gives the same budget: rounding happens only once.
   */
  lemma RateRoundTrip(n: nat)
    requires 1 <= n <= SECOND_MICROS
    ensures RateOf(BudgetFor(n)) >= n
    ensures BudgetFor(RateOf(BudgetFor(n))) == BudgetFor(n)
  {
    var q := SECOND_MICROS / n;
    QuotientAtLeast(SECOND_MICROS, n, 1);
    QuotientBounds(SECOND_MICROS, n);
    QuotientAtLeast(SECOND_MICROS, q, n);
    assert n * q == q * n;
    var r := SECOND_MICROS / q;
    QuotientBounds(SECOND_MICROS, q);
    SameQuotient(n, q, r);
  }

  lemma SameQuotient(n: nat, q: nat, r: nat)
    requires 1 <= n <= r && q * n <= SECOND_MICROS < q * n + n && r * q <= SECOND_MICROS
    ensures SECOND_MICROS / r == q
  {
    assert q * r == r * q;
    assert q * r + r >= q * n + n by {
      assert (q + 1) * r >= (q + 1) * n;
    }
    QuotientIs(SECOND_MICROS, r, q);
  }

  /** The reported rate is the requested one exactly when the next higher rate has another budget. */
  lemma RateExactIff(n: nat)
    requires 1 <= n <= SECOND_MICROS
    ensures RateOf(BudgetFor(n)) == n <==> BudgetFor(n + 1) != BudgetFor(n)
  {
    var q := SECOND_MICROS / n;
    RateRoundTrip(n);
    QuotientAtLeast(SECOND_MICROS, n, 1);
    QuotientAtLeast(SECOND_MICROS, q, n + 1);
    assert (n + 1) * q == q * (n + 1);
    QuotientAtLeast(SECOND_MICROS, n + 1, q);
    QuotientAtLeast(SECOND_MICROS, n + 1, q + 1);
    QuotientBounds(SECOND_MICROS, n);
    assert (q + 1) * (n + 1) == q * n + n + q + 1;
  }

  /** Up to 1000 frames per second the requested rate is reported exactly. */
  lemma RateExactTo1000(n: nat)
    requires 1 <= n <= 1000
    ensures RateOf(BudgetFor(n)) == n
  {
    var q := SECOND_MICROS / n;
    QuotientBounds(SECOND_MICROS, n);
    QuotientAtLeast(SECOND_MICROS, n, 1000);
    assert 1000 * n <= SECOND_MICROS;
    assert n * q == q * n;
    QuotientIs(SECOND_MICROS, q, n);
  }

  /** Above a million the budget is 0 and the reported rate stays at a million. */
  lemma RateSaturates(n: nat)
    requires n > SECOND_MICROS
    ensures BudgetFor(n) == 0 && RateOf(BudgetFor(n)) == 1_000_000
  {
    QuotientAtLeast(SECOND_MICROS, n, 1);
  }

  /** Asking for 0 frames per second falls back to a budget that reports 59, not 60. */
  lemma FallbackReports59()
    ensures RateOf(BudgetFor(0)) == 59 && RateOf(BudgetFor(60)) == 60
    ensures BudgetFor(0) == BudgetFor(60) + 1
  {
  }

  // ---------------------------------------------------------------- dropping

  /** Whether the gap between two ticks (in nanoseconds) exceeds the budget. */
  predicate TooLate(prev: nat, now: nat, budgetMicros: nat) {
    now >= prev && now - prev > budgetMicros * 1000
  }

  function LateGaps(ticks: seq<nat>, budgetMicros: nat): nat {
    if |ticks| < 2 then 0
    else
      LateGaps(ticks[..|ticks| - 1], budgetMicros)
      + if TooLate(ticks[|ticks| - 2], ticks[|ticks| - 1], budgetMicros) then 1 else 0
  }

  class Timer {
    var start: nat
    var frameCount: nat
    var dropCount: nat
    var lastTick: Option<nat>
    const budgetMicros: nat
    ghost var ticks: seq<nat>  // since creation or the last reset

    ghost predicate Valid()
      reads this
    {
      && frameCount == |ticks|
      && dropCount == LateGaps(ticks, budgetMicros)
      && lastTick == if ticks == [] then None else Some(ticks[|ticks| - 1])
    }

    constructor (targetFps: nat, now: nat)
      ensures Valid() && ticks == [] && start == now
      ensures targetFps >= 1 ==> budgetMicros * targetFps <= 1_000_000 < (budgetMicros + 1) * targetFps
      ensures targetFps == 0 ==> budgetMicros == 16_667
    {
      start := now;
      frameCount, dropCount, lastTick, ticks := 0, 0, None, [];
      budgetMicros := BudgetFor(targetFps);
      BudgetFits(targetFps);
    }

    method Tick(now: nat)
      requires Valid()
      modifies this
      ensures Valid() && ticks == old(ticks) + [now] && start == old(start)
    {
      ghost var before := ticks;
      if lastTick.Some? && TooLate(lastTick.value, now, budgetMicros) {
        dropCount := dropCount + 1;
      }
      lastTick := Some(now);
      frameCount := frameCount + 1;
      ticks := ticks + [now];
      assert ticks[..|ticks| - 1] == before;
    }

    method Reset(now: nat)
      requires Valid()
      modifies this
      ensures Valid() && ticks == [] && start == now
    {
      start := now;
      frameCount, dropCount, lastTick, ticks := 0, 0, None, [];
    }

    /**
     * `stats`: the counters, the frames per second since the start, with times
     * in nanoseconds, and the share of frames that came late.
     */
    method Stats(now: nat) returns (frames: nat, drops: nat, observedFps: real, dropRatio: real, elapsed: nat)
      requires Valid()
      ensures frames == |ticks| && drops == LateGaps(ticks, budgetMicros)
      ensures elapsed == if now < start then 0 else now - start
      ensures if elapsed == 0 then observedFps == 0.0
              else observedFps * elapsed as real == 1_000_000_000.0 * frames as real
      ensures ticks == [] ==> drops == 0 && dropRatio == 0.0
      ensures ticks != [] ==> drops < frames && 0.0 <= dropRatio < 1.0 && dropRatio * frames as real == drops as real
    {
      FewerDropsThanFrames(ticks, budgetMicros);
      frames, drops := frameCount, dropCount;
      elapsed := if now < start then 0 else now - start;
      observedFps, dropRatio := 0.0, 0.0;
      if elapsed > 0 {
        var seconds := elapsed as real / 1_000_000_000.0;
        observedFps := frames as real / seconds;
        RateTimesTime(frames as real, elapsed as real);
      }
      if frames > 0 {
        dropRatio := drops as real / frames as real;
        RatioBelowOne(drops, frames);
      }
    }
  }

  lemma RateTimesTime(frames: real, elapsed: real)
    requires elapsed > 0.0
    ensures frames / (elapsed / 1_000_000_000.0) * elapsed == 1_000_000_000.0 * frames
  {
    var seconds := elapsed / 1_000_000_000.0;
    assert frames / seconds * seconds == frames;
    assert elapsed == 1_000_000_000.0 * seconds;
  }

  lemma RatioBelowOne(a: nat, b: nat)
    requires a < b
    ensures 0.0 <= a as real / b as real < 1.0
    ensures a as real / b as real * b as real == a as real
  {
  }

  lemma {:induction false} FewerDropsThanFrames(ticks: seq<nat>, budgetMicros: nat)
    ensures ticks != [] ==> LateGaps(ticks, budgetMicros) < |ticks|
    ensures ticks == [] ==> LateGaps(ticks, budgetMicros) == 0
  {
    if |ticks| >= 2 {
      FewerDropsThanFrames(ticks[..|ticks| - 1], budgetMicros);
    }
  }

  /** The drops are the positions whose gap to the one before is over budget. */
  lemma {:induction false} LateGapsCountPositions(ticks: seq<nat>, budgetMicros: nat)
    ensures LateGaps(ticks, budgetMicros) == |LatePositions(ticks, budgetMicros)|
  {
    if |ticks| >= 2 {
      var n := |ticks| - 1;
      LateGapsCountPositions(ticks[..n], budgetMicros);
      var before := LatePositions(ticks[..n], budgetMicros);
      assert n !in before;
      forall i: nat
        ensures LateAt(ticks, i, budgetMicros)
                <==> LateAt(ticks[..n], i, budgetMicros) || (i == n && TooLate(ticks[n - 1], ticks[n], budgetMicros))
      {
      }
      assert LatePositions(ticks, budgetMicros) ==
             if TooLate(ticks[n - 1], ticks[n], budgetMicros) then before + {n} else before;
    }
  }

  predicate LateAt(ticks: seq<nat>, i: nat, budgetMicros: nat) {
    1 <= i < |ticks| && ticks[i] > ticks[i - 1] + 1000 * budgetMicros
  }

  function LatePositions(ticks: seq<nat>, budgetMicros: nat): set<nat> {
    set i: nat | i < |ticks| && LateAt(ticks, i, budgetMicros)
  }
}
