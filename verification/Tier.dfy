/** Adaptive sizing of the cache tiers. Ratios are exact rationals. */
module Tier {
  import opened Common

  const MB: nat := 1024 * 1024
  const GB: nat := 1024 * 1024 * 1024

  const MIN_MEMORY: nat := 32 * MB
  const MAX_MEMORY: nat := 256 * MB
  const MAX_DISK: nat := 25 * GB

  datatype Stats = Stats(mokaHits: nat, mokaMisses: nat, foyerHits: nat, foyerMisses: nat)
  {
    function MokaTotal(): nat { mokaHits + mokaMisses }

    function FoyerTotal(): nat { foyerHits + foyerMisses }

    function Samples(): nat { MokaTotal() + FoyerTotal() }

    function Hits(): nat { mokaHits + foyerHits }
  }

  datatype Tiers = Tiers(memory: nat, disk: nat)

  const DEFAULT_V1 := Tiers(64 * MB, 10 * GB)

  /** The three-way computation of the original. */
  function HitRatio(s: Stats): real
    requires s.Samples() > 0
  {
    var moka, foyer := s.MokaTotal() as real, s.FoyerTotal() as real;
    if s.MokaTotal() > 0 && s.FoyerTotal() > 0 then
      var mokaRatio, foyerRatio := s.mokaHits as real / moka, s.foyerHits as real / foyer;
      (mokaRatio * moka + foyerRatio * foyer) / s.Samples() as real
    else if s.MokaTotal() > 0 then s.mokaHits as real / moka
    else s.foyerHits as real / foyer
  }

  datatype Window = Silent | High | Healthy | Low

  function Classify(s: Stats): Window {
    if s.Samples() == 0 then Silent
    else if HitRatio(s) >= 0.85 then High
    else if HitRatio(s) < 0.5 then Low
    else Healthy
  }

  /** `saturating_mul(2)` and `saturating_add`, then the caps. */
  function Expand(t: Tiers): Tiers {
    Tiers(Min(Min(t.memory * 2, U64_MAX), MAX_MEMORY), Min(Min(t.disk + t.disk / 2, U64_MAX), MAX_DISK))
  }

  function Tune(t: Tiers, w: Window): Tiers {
    match w
    case High => Expand(t)
    case Low => t.(memory := Max(t.memory / 2, MIN_MEMORY))
    case _ => t
  }

  class CacheTiers {
    var memory: nat
    var disk: nat

    function Sizes(): Tiers
      reads this
    {
      Tiers(memory, disk)
    }

    constructor DefaultV1()
      ensures Sizes() == DEFAULT_V1
    {
      memory, disk := 64 * MB, 10 * GB;
    }

    /** `auto_tune`; adding the counters overflows a `u64` when `overflow`. */
    method AutoTune(s: Stats) returns (overflow: bool)
      modifies this
      ensures overflow <==> s.Samples() > U64_MAX
      ensures Sizes() == if overflow then old(Sizes()) else Tune(old(Sizes()), Classify(s))
    {
      if s.Samples() > U64_MAX {
        return true;
      }
      overflow := false;
      if s.Samples() == 0 {
        return;
      }
      var ratio := HitRatio(s);
      if ratio >= 0.85 {
        memory, disk := Min(Min(memory * 2, U64_MAX), MAX_MEMORY), Min(Min(disk + disk / 2, U64_MAX), MAX_DISK);
      } else if ratio < 0.5 {
        memory := Max(memory / 2, MIN_MEMORY);
      }
    }
  }

  // ------------------------------------------------------------- the proofs

  lemma DivideBack(a: real, b: real)
    requires b > 0.0
    ensures a / b * b == a
  {
  }

  /** All three branches compute total hits over total samples. */
  lemma RatioIsHitsOverSamples(s: Stats)
    requires s.Samples() > 0
    ensures HitRatio(s) == s.Hits() as real / s.Samples() as real
  {
    if s.MokaTotal() > 0 && s.FoyerTotal() > 0 {
      DivideBack(s.mokaHits as real, s.MokaTotal() as real);
      DivideBack(s.foyerHits as real, s.FoyerTotal() as real);
    }
  }

  lemma RatioAgainst(hits: real, samples: real, bound: real)
    requires samples > 0.0
    ensures hits / samples >= bound <==> hits >= bound * samples
  {
    DivideBack(hits, samples);
    var r := hits / samples;
    if r >= bound {
      assert r * samples >= bound * samples;
    } else {
      assert r * samples < bound * samples;
    }
  }

  /** The windows in whole numbers: at least 85 %, below 50 %, or between. */
  lemma ClassifyByCounting(s: Stats)
    ensures Classify(s).Silent? <==> s.Samples() == 0
    ensures Classify(s).High? <==> s.Samples() > 0 && 100 * s.Hits() >= 85 * s.Samples()
    ensures Classify(s).Low? <==> 2 * s.Hits() < s.Samples()
  {
    if s.Samples() > 0 {
      var h, n := s.Hits() as real, s.Samples() as real;
      RatioIsHitsOverSamples(s);
      RatioAgainst(h, n, 0.85);
      RatioAgainst(h, n, 0.5);
      assert h >= 0.85 * n <==> 100.0 * h >= 85.0 * n;
      assert 100.0 * h == (100 * s.Hits()) as real && 85.0 * n == (85 * s.Samples()) as real;
      assert 2.0 * h == (2 * s.Hits()) as real;
    }
  }

  function Run(ws: seq<Window>): Tiers {
    if ws == [] then DEFAULT_V1 else Tune(Run(ws[..|ws| - 1]), ws[|ws| - 1])
  }

  function CountHigh(ws: seq<Window>): nat {
    if ws == [] then 0 else CountHigh(ws[..|ws| - 1]) + if ws[|ws| - 1].High? then 1 else 0
  }

  /** The disk sizes on the way up: 10, 15, 22.5 and 25 GB. */
  function DiskAfter(highs: nat): nat {
    if highs == 0 then 10 * GB
    else if highs == 1 then 15 * GB
    else if highs == 2 then 22 * GB + 512 * MB
    else 25 * GB
  }

  /** Memory as a walk over four sizes that stops at both ends. */
  function MemoryLevel(ws: seq<Window>): (level: nat)
    ensures level <= 3
  {
    if ws == [] then 1
    else
      var before := MemoryLevel(ws[..|ws| - 1]);
      match ws[|ws| - 1]
      case High => Min(before + 1, 3)
      case Low => if before == 0 then 0 else before - 1
      case _ => before
  }

  function MemoryAt(level: nat): nat
    requires level <= 3
  {
    if level == 0 then 32 * MB else if level == 1 then 64 * MB else if level == 2 then 128 * MB else 256 * MB
  }

  /**
   * After any sequence of windows, the disk size is decided by the number of
   * high windows alone, and the memory size by a clamped walk.
   */
  lemma {:induction false} SizesAreLevels(ws: seq<Window>)
    ensures Run(ws) == Tiers(MemoryAt(MemoryLevel(ws)), DiskAfter(CountHigh(ws)))
  {
    if ws != [] {
      SizesAreLevels(ws[..|ws| - 1]);
    }
  }

  /** The safety bounds, at every moment of every run; the disk tier never shrinks. */
  lemma SizesStayInBounds(ws: seq<Window>, w: Window)
    ensures Run(ws).memory in {33_554_432, 67_108_864, 134_217_728, 268_435_456}
    ensures Run(ws).disk in {10_737_418_240, 16_106_127_360, 24_159_191_040, 26_843_545_600}
    ensures Run(ws).disk <= Run(ws + [w]).disk
  {
    SizesAreLevels(ws);
    assert (ws + [w])[..|ws|] == ws;
    SizesAreLevels(ws + [w]);
  }

  lemma {:induction false} LevelsAppend(ws: seq<Window>, more: seq<Window>)
    ensures CountHigh(ws + more) == CountHigh(ws) + CountHigh(more)
    ensures (forall k :: 0 <= k < |more| ==> more[k] != Low) && MemoryLevel(ws) == 3 ==> MemoryLevel(ws + more) == 3
  {
    if more == [] {
      assert ws + more == ws;
    } else {
      var n := |more| - 1;
      assert (ws + more)[..|ws + more| - 1] == ws + more[..n];
      LevelsAppend(ws, more[..n]);
    }
  }

  /**
   * Three high windows in a row fill both tiers, from wherever the run is. The
   * disk tier stays full for good, memory until the first low window.
   */
  lemma ThreeHighWindowsFill(ws: seq<Window>, more: seq<Window>)
    ensures
      var full := ws + [High] + [High] + [High];
      && Run(full) == Tiers(MAX_MEMORY, MAX_DISK)
      && Run(full + more).disk == MAX_DISK
      && ((forall k :: 0 <= k < |more| ==> more[k] != Low) ==> Run(full + more).memory == MAX_MEMORY)
      && Run(full + [Low]).memory == MAX_MEMORY / 2
  {
    var one, two := ws + [High], ws + [High] + [High];
    var full := two + [High];
    assert one[..|ws|] == ws && two[..|one|] == one && full[..|two|] == two;
    assert MemoryLevel(one) >= 1 && CountHigh(one) >= 1;
    assert MemoryLevel(two) >= 2 && CountHigh(two) >= 2;
    assert MemoryLevel(full) == 3 && CountHigh(full) >= 3;
    SizesAreLevels(full);
    LevelsAppend(full, more);
    SizesAreLevels(full + more);
    assert (full + [Low])[..|full|] == full;
  }
}
