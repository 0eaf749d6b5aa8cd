/**
 * The GDI watchdog: sample, record, and restart the web view on a leak; and
 * what its log makes the backend choice do later.
 */
module Watchdog {
  import opened Common
  import T = Telemetry
  import B = Backend

  /** `telemetry`: a telemetry hook is attached. */
  datatype Config = Config(warning: nat, critical: nat, warmup: nat, telemetry: bool)

  /**
   * One tick of the timer: the GDI count and the time the sample is stored,
   * and which of the calls it may lead to succeed.
   */
  datatype Reading = Reading(count: T.Count, now: int, sampleStored: bool, autosaveOk: bool, restartStored: bool)

  datatype Action =
    | Sampled(count: T.Count, delta: nat)
    | Recorded(count: T.Count)
    | Autosave(ok: bool)
    | EmitRestart
    | RecordedRestart

  /** `GdiCounter`. */
  class GdiCounter {
    var lastCount: Option<T.Count>

    constructor ()
      ensures lastCount == None
    {
      lastCount := None;
    }

    method Sample(count: T.Count) returns (delta: nat)
      modifies this
      ensures delta == Delta(old(lastCount), count) && lastCount == Some(count)
    {
      delta := match lastCount case Some(prev) => (if count >= prev then count - prev else 0) case None => 0;
      lastCount := Some(count);
    }

    method Reset()
      modifies this
      ensures lastCount == None
    {
      lastCount := None;
    }
  }

  /** Growth since the previous sample, 0 without one or when it shrank. */
  function Delta(last: Option<T.Count>, count: T.Count): nat {
    if last.Some? && count > last.value then count - last.value else 0
  }

  // ---------------------------------------------- one tick, as a function

  /** The actions of a tick that samples. */
  function Actions(cfg: Config, last: Option<T.Count>, r: Reading): seq<Action> {
    [Sampled(r.count, Delta(last, r.count))]
    + (if cfg.telemetry then [Recorded(r.count)] else [])
    + (if r.count >= cfg.critical then RestartActions(cfg, r) else [])
  }

  function RestartActions(cfg: Config, r: Reading): seq<Action> {
    [Autosave(r.autosaveOk)] + [EmitRestart] + (if cfg.telemetry then [RecordedRestart] else [])
  }

  /** The counter's baseline after the first `n` ticks. */
  function Baseline(cfg: Config, rs: seq<Reading>, n: nat): Option<T.Count>
    requires n <= |rs|
  {
    if n <= cfg.warmup || rs[n - 1].count >= cfg.critical then None else Some(rs[n - 1].count)
  }

  /** Everything the first `n` ticks do. */
  function Trace(cfg: Config, rs: seq<Reading>, n: nat): seq<Action>
    requires n <= |rs|
  {
    if n <= cfg.warmup then []
    else Trace(cfg, rs, n - 1) + Actions(cfg, Baseline(cfg, rs, n - 1), rs[n - 1])
  }

  function StoredSamples(cfg: Config, rs: seq<Reading>, n: nat): seq<T.Sample>
    requires n <= |rs|
  {
    if n <= cfg.warmup then []
    else
      StoredSamples(cfg, rs, n - 1) +
      if cfg.telemetry && rs[n - 1].sampleStored then [T.Sample(rs[n - 1].now, rs[n - 1].count)] else []
  }

  function StoredRestarts(cfg: Config, rs: seq<Reading>, n: nat): seq<T.Restart>
    requires n <= |rs|
  {
    if n <= cfg.warmup then []
    else
      StoredRestarts(cfg, rs, n - 1) +
      if cfg.telemetry && rs[n - 1].count >= cfg.critical && rs[n - 1].restartStored
      then [T.Restart(rs[n - 1].now, "GdiLeakCritical")] else []
  }

  /** A tick after warm-up. */
  method SampleTick(cfg: Config, counter: GdiCounter, store: T.Store, r: Reading) returns (actions: seq<Action>)
    modifies counter, store
    ensures actions == Actions(cfg, old(counter.lastCount), r)
    ensures counter.lastCount == if r.count >= cfg.critical then None else Some(r.count)
    ensures store.samples ==
            old(store.samples) + if cfg.telemetry && r.sampleStored then [T.Sample(r.now, r.count)] else []
    ensures store.restarts ==
            old(store.restarts) +
            if cfg.telemetry && r.count >= cfg.critical && r.restartStored
            then [T.Restart(r.now, "GdiLeakCritical")] else []
  {
    var delta := counter.Sample(r.count);
    actions := [Sampled(r.count, delta)];
    if cfg.telemetry {
      store.RecordGdiSample(r.now, r.count, r.sampleStored);
      actions := actions + [Recorded(r.count)];
    }
    if r.count >= cfg.critical {
      actions := actions + [Autosave(r.autosaveOk)];
      actions := actions + [EmitRestart];
      if cfg.telemetry {
        store.RecordRestart(r.now, "GdiLeakCritical", r.restartStored);
        actions := actions + [RecordedRestart];
      }
      counter.Reset();
    }
  }

  /**
   * The loop of `Watchdog::spawn`, run for as many ticks as there are readings;
   * the telemetry hook, when attached, is the sink of a store, which may hold
   * the rows of earlier sessions.
   */
  method Watch(cfg: Config, counter: GdiCounter, store: T.Store, rs: seq<Reading>) returns (trace: seq<Action>)
    requires counter.lastCount == None
    modifies counter, store
    ensures trace == Trace(cfg, rs, |rs|)
    ensures store.samples == old(store.samples) + StoredSamples(cfg, rs, |rs|)
    ensures store.restarts == old(store.restarts) + StoredRestarts(cfg, rs, |rs|)
    ensures counter.lastCount == Baseline(cfg, rs, |rs|)
  {
    trace := [];
    var warmupRemaining := cfg.warmup;
    for i := 0 to |rs|
      invariant warmupRemaining == if i <= cfg.warmup then cfg.warmup - i else 0
      invariant WatchedSoFar(cfg, rs, i, trace, counter.lastCount)
      invariant store.samples == old(store.samples) + StoredSamples(cfg, rs, i)
      invariant store.restarts == old(store.restarts) + StoredRestarts(cfg, rs, i)
    {
      var r := rs[i];
      if warmupRemaining > 0 {
        warmupRemaining := warmupRemaining - 1;
        counter.Reset();
        continue;
      }
      OneMoreTick(cfg, rs, i, trace, counter.lastCount);
      RowsOfTick(cfg, rs, i, old(store.samples), old(store.restarts));
      var actions := SampleTick(cfg, counter, store, r);
      trace := trace + actions;
    }
  }

  /** What the loop has done and what the counter remembers after `n` ticks. */
  ghost predicate WatchedSoFar(cfg: Config, rs: seq<Reading>, n: nat, trace: seq<Action>, last: Option<T.Count>)
    requires n <= |rs|
  {
    trace == Trace(cfg, rs, n) && last == Baseline(cfg, rs, n)
  }

  lemma OneMoreTick(cfg: Config, rs: seq<Reading>, n: nat, trace: seq<Action>, last: Option<T.Count>)
    requires cfg.warmup <= n < |rs| && WatchedSoFar(cfg, rs, n, trace, last)
    ensures WatchedSoFar(cfg, rs, n + 1, trace + Actions(cfg, last, rs[n]), if rs[n].count >= cfg.critical then None else Some(rs[n].count))
  {
  }

  /** The rows of one more tick come behind those of the ticks before and those of earlier sessions. */
  lemma RowsOfTick(cfg: Config, rs: seq<Reading>, i: nat, samples: seq<T.Sample>, restarts: seq<T.Restart>)
    requires cfg.warmup <= i < |rs|
    ensures
      samples + StoredSamples(cfg, rs, i + 1) ==
      samples + StoredSamples(cfg, rs, i) +
      if cfg.telemetry && rs[i].sampleStored then [T.Sample(rs[i].now, rs[i].count)] else []
    ensures
      restarts + StoredRestarts(cfg, rs, i + 1) ==
      restarts + StoredRestarts(cfg, rs, i) +
      if cfg.telemetry && rs[i].count >= cfg.critical && rs[i].restartStored
      then [T.Restart(rs[i].now, "GdiLeakCritical")] else []
  {
  }

  /** One run of the program, from its start to its end. */
  datatype Session = Session(cfg: Config, readings: seq<Reading>)

  /** The sample log after some sessions; it is a file and outlives them. */
  function LogAfter(earlier: seq<T.Sample>, sessions: seq<Session>): seq<T.Sample> {
    if sessions == [] then earlier
    else
      var last := sessions[|sessions| - 1];
      LogAfter(earlier, sessions[..|sessions| - 1]) + StoredSamples(last.cfg, last.readings, |last.readings|)
  }

  /** Sessions one after the other, each with a new watchdog on the same store. */
  method RunSessions(store: T.Store, sessions: seq<Session>)
    modifies store
    ensures store.samples == LogAfter(old(store.samples), sessions)
  {
    for i := 0 to |sessions|
      invariant store.samples == LogAfter(old(store.samples), sessions[..i])
    {
      assert sessions[..i + 1][..i] == sessions[..i];
      var counter := new GdiCounter();
      var _ := Watch(sessions[i].cfg, counter, store, sessions[i].readings);
    }
    assert sessions[..|sessions|] == sessions;
  }

  // ------------------------------------------------------------ trace claims

  /** Position of the block of tick `i` in the trace. */
  function Offset(cfg: Config, rs: seq<Reading>, i: nat): nat
    requires i <= |rs|
  {
    |Trace(cfg, rs, i)|
  }

  /**
   * During warm-up nothing happens; every later tick leaves its block of
   * actions in the trace, right after the block of the tick before.
   */
  lemma {:induction false} TraceBlocks(cfg: Config, rs: seq<Reading>, n: nat, i: nat)
    requires i < n <= |rs|
    ensures i < cfg.warmup ==> Offset(cfg, rs, i + 1) == 0
    ensures i >= cfg.warmup ==>
      var block := Actions(cfg, Baseline(cfg, rs, i), rs[i]);
      && Offset(cfg, rs, i + 1) == Offset(cfg, rs, i) + |block| <= |Trace(cfg, rs, n)|
      && Trace(cfg, rs, n)[Offset(cfg, rs, i)..Offset(cfg, rs, i + 1)] == block
  {
    if i >= cfg.warmup {
      var from, to := Offset(cfg, rs, i), Offset(cfg, rs, i + 1);
      var before, last := Trace(cfg, rs, n - 1), Actions(cfg, Baseline(cfg, rs, n - 1), rs[n - 1]);
      assert Trace(cfg, rs, n) == before + last;
      if i + 1 < n {
        TraceBlocks(cfg, rs, n - 1, i);
        assert (before + last)[from..to] == before[from..to];
      } else {
        assert (before + last)[|before|..] == last;
      }
    }
  }

  /** The counts of the samples, in the order they were recorded. */
  function RecordedCounts(trace: seq<Action>): seq<T.Count> {
    if trace == [] then []
    else
      RecordedCounts(trace[..|trace| - 1]) +
      match trace[|trace| - 1] case Recorded(c) => [c] case _ => []
  }

  lemma {:induction false} RecordedConcat(a: seq<Action>, b: seq<Action>)
    ensures RecordedCounts(a + b) == RecordedCounts(a) + RecordedCounts(b)
  {
    if b == [] {
      assert a + b == a;
    } else {
      assert (a + b)[..|a + b| - 1] == a + b[..|b| - 1];
      RecordedConcat(a, b[..|b| - 1]);
    }
  }

  lemma RecordedOne(a: Action)
    ensures RecordedCounts([a]) == if a.Recorded? then [a.count] else []
  {
    assert [a][..0] == [];
  }

  lemma RecordedInActions(cfg: Config, last: Option<T.Count>, r: Reading)
    ensures RecordedCounts(Actions(cfg, last, r)) == if cfg.telemetry then [r.count] else []
  {
    var head := [Sampled(r.count, Delta(last, r.count))];
    var middle := if cfg.telemetry then [Recorded(r.count)] else [];
    var tail := if r.count >= cfg.critical then RestartActions(cfg, r) else [];
    RecordedConcat(head + middle, tail);
    RecordedConcat(head, middle);
    RecordedOne(head[0]);
    RecordedOne(Recorded(r.count));
    RecordedInRestart(cfg, r);
  }

  lemma RecordedInRestart(cfg: Config, r: Reading)
    ensures RecordedCounts(RestartActions(cfg, r)) == []
  {
    var tail := if cfg.telemetry then [RecordedRestart] else [];
    RecordedConcat([Autosave(r.autosaveOk)] + [EmitRestart], tail);
    RecordedConcat([Autosave(r.autosaveOk)], [EmitRestart]);
    RecordedOne(Autosave(r.autosaveOk));
    RecordedOne(EmitRestart);
    RecordedOne(RecordedRestart);
  }

  lemma RecordedByTick(cfg: Config, rs: seq<Reading>, n: nat)
    requires cfg.warmup < n <= |rs|
    ensures RecordedCounts(Trace(cfg, rs, n)) ==
            RecordedCounts(Trace(cfg, rs, n - 1)) + if cfg.telemetry then [rs[n - 1].count] else []
  {
    RecordedConcat(Trace(cfg, rs, n - 1), Actions(cfg, Baseline(cfg, rs, n - 1), rs[n - 1]));
    RecordedInActions(cfg, Baseline(cfg, rs, n - 1), rs[n - 1]);
  }

  function Counts(rs: seq<Reading>, from: nat, to: nat): seq<T.Count>
    requires to <= |rs|
  {
    if to <= from then [] else Counts(rs, from, to - 1) + [rs[to - 1].count]
  }

  lemma {:induction false} CountsInOrder(rs: seq<Reading>, from: nat, to: nat)
    requires to <= |rs|
    ensures |Counts(rs, from, to)| == if to <= from then 0 else to - from
    ensures forall k :: 0 <= k < |Counts(rs, from, to)| ==> Counts(rs, from, to)[k] == rs[from + k].count
  {
    if to > from {
      var before, after := Counts(rs, from, to - 1), Counts(rs, from, to);
      CountsInOrder(rs, from, to - 1);
      assert after == before + [rs[to - 1].count];
      forall k | 0 <= k < |after|
        ensures after[k] == rs[from + k].count
      {
        assert k < |before| ==> after[k] == before[k];
      }
    }
  }

  lemma {:induction false} RecordedAreCounts(cfg: Config, rs: seq<Reading>, n: nat)
    requires n <= |rs|
    ensures RecordedCounts(Trace(cfg, rs, n)) == if cfg.telemetry then Counts(rs, cfg.warmup, n) else []
  {
    if n > cfg.warmup {
      RecordedAreCounts(cfg, rs, n - 1);
      RecordedByTick(cfg, rs, n);
    }
  }

  /** The telemetry hook, if attached, sees exactly the counts after warm-up, in order. */
  lemma RecordedAreReadings(cfg: Config, rs: seq<Reading>, n: nat)
    requires n <= |rs|
    ensures
      var counts := RecordedCounts(Trace(cfg, rs, n));
      && |counts| == (if n <= cfg.warmup || !cfg.telemetry then 0 else n - cfg.warmup)
      && forall k :: 0 <= k < |counts| ==> counts[k] == rs[cfg.warmup + k].count
  {
    RecordedAreCounts(cfg, rs, n);
    CountsInOrder(rs, cfg.warmup, n);
  }

  datatype Sort = Autosaves | Emissions | RestartRecords

  predicate OfSort(a: Action, sort: Sort) {
    match sort
    case Autosaves => a.Autosave?
    case Emissions => a.EmitRestart?
    case RestartRecords => a.RecordedRestart?
  }

  function Count(trace: seq<Action>, sort: Sort): nat {
    if trace == [] then 0 else Count(trace[..|trace| - 1], sort) + if OfSort(trace[|trace| - 1], sort) then 1 else 0
  }

  function CriticalReadings(cfg: Config, rs: seq<Reading>, n: nat): nat
    requires n <= |rs|
  {
    if n <= cfg.warmup then 0
    else CriticalReadings(cfg, rs, n - 1) + if rs[n - 1].count >= cfg.critical then 1 else 0
  }

  lemma {:induction false} CountConcat(a: seq<Action>, b: seq<Action>, sort: Sort)
    ensures Count(a + b, sort) == Count(a, sort) + Count(b, sort)
  {
    if b == [] {
      assert a + b == a;
    } else {
      assert (a + b)[..|a + b| - 1] == a + b[..|b| - 1];
      CountConcat(a, b[..|b| - 1], sort);
    }
  }

  lemma CountOne(a: Action, sort: Sort)
    ensures Count([a], sort) == if OfSort(a, sort) then 1 else 0
  {
    assert [a][..0] == [];
  }

  lemma CountInRestart(cfg: Config, r: Reading, sort: Sort)
    ensures Count(RestartActions(cfg, r), sort) == if sort.RestartRecords? && !cfg.telemetry then 0 else 1
  {
    var tail := if cfg.telemetry then [RecordedRestart] else [];
    CountConcat([Autosave(r.autosaveOk)] + [EmitRestart], tail, sort);
    CountConcat([Autosave(r.autosaveOk)], [EmitRestart], sort);
    CountOne(Autosave(r.autosaveOk), sort);
    CountOne(EmitRestart, sort);
    CountOne(RecordedRestart, sort);
  }

  lemma CountInActions(cfg: Config, last: Option<T.Count>, r: Reading, sort: Sort)
    ensures Count(Actions(cfg, last, r), sort) ==
            if r.count >= cfg.critical && (sort.RestartRecords? ==> cfg.telemetry) then 1 else 0
  {
    var head := [Sampled(r.count, Delta(last, r.count))];
    var middle := if cfg.telemetry then [Recorded(r.count)] else [];
    var tail := if r.count >= cfg.critical then RestartActions(cfg, r) else [];
    CountConcat(head + middle, tail, sort);
    CountConcat(head, middle, sort);
    CountOne(head[0], sort);
    CountOne(Recorded(r.count), sort);
    CountInRestart(cfg, r, sort);
  }

  lemma CountByTick(cfg: Config, rs: seq<Reading>, n: nat, sort: Sort)
    requires cfg.warmup < n <= |rs|
    ensures Count(Trace(cfg, rs, n), sort) ==
            Count(Trace(cfg, rs, n - 1), sort) +
            if rs[n - 1].count >= cfg.critical && (sort.RestartRecords? ==> cfg.telemetry) then 1 else 0
  {
    CountConcat(Trace(cfg, rs, n - 1), Actions(cfg, Baseline(cfg, rs, n - 1), rs[n - 1]), sort);
    CountInActions(cfg, Baseline(cfg, rs, n - 1), rs[n - 1], sort);
  }

  /** Critical readings, autosaves, emissions and (with a hook) restart records are equally many. */
  lemma {:induction false} OneRestartPerCriticalReading(cfg: Config, rs: seq<Reading>, n: nat, sort: Sort)
    requires n <= |rs|
    ensures Count(Trace(cfg, rs, n), sort) ==
            if sort.RestartRecords? && !cfg.telemetry then 0 else CriticalReadings(cfg, rs, n)
  {
    if n > cfg.warmup {
      OneRestartPerCriticalReading(cfg, rs, n - 1, sort);
      CountByTick(cfg, rs, n, sort);
    }
  }

  /**
   * Drafts are saved before every restart, in the same tick, whether or not
   * saving succeeds, and with a hook every restart is recorded right after it
   * is emitted.
   */
  lemma {:induction false} AutosaveBeforeRestart(cfg: Config, rs: seq<Reading>, n: nat, k: nat)
    requires n <= |rs| && k < |Trace(cfg, rs, n)|
    ensures
      var t := Trace(cfg, rs, n);
      && (t[k].EmitRestart? <==> k > 0 && t[k - 1].Autosave?)
      && (cfg.telemetry ==> (t[k].EmitRestart? <==> k < |t| - 1 && t[k + 1].RecordedRestart?))
      && t[0].Sampled? && !t[|t| - 1].Autosave? && (cfg.telemetry ==> !t[|t| - 1].EmitRestart?)
  {
    var t := Trace(cfg, rs, n - 1);
    var r := rs[n - 1];
    var block := Actions(cfg, Baseline(cfg, rs, n - 1), r);
    assert Trace(cfg, rs, n) == t + block;
    BlockShape(cfg, Baseline(cfg, rs, n - 1), r);
    if k < |t| {
      AutosaveBeforeRestart(cfg, rs, n - 1, k);
    } else if t != [] {
      AutosaveBeforeRestart(cfg, rs, n - 1, |t| - 1);
    }
  }

  /**
   * With a hook every sample is recorded at once, before anything else, and
   * nothing else is recorded; a restart, if any, comes after that.
   */
  lemma {:induction false} RecordedRightAfterSample(cfg: Config, rs: seq<Reading>, n: nat, k: nat)
    requires n <= |rs| && k < |Trace(cfg, rs, n)|
    ensures
      var t := Trace(cfg, rs, n);
      && t[0].Sampled?
      && (t[k].Recorded? ==> k > 0 && t[k - 1].Sampled? && t[k - 1].count == t[k].count)
      && (cfg.telemetry && t[k].Sampled? ==> k < |t| - 1 && t[k + 1] == Recorded(t[k].count))
      && (!cfg.telemetry ==> !t[k].Recorded? && !t[k].RecordedRestart?)
  {
    var t := Trace(cfg, rs, n - 1);
    var r := rs[n - 1];
    var block := Actions(cfg, Baseline(cfg, rs, n - 1), r);
    assert Trace(cfg, rs, n) == t + block;
    RecordShape(cfg, Baseline(cfg, rs, n - 1), r);
    if k < |t| {
      RecordedRightAfterSample(cfg, rs, n - 1, k);
    } else if t != [] {
      RecordedRightAfterSample(cfg, rs, n - 1, |t| - 1);
    }
  }

  lemma RecordShape(cfg: Config, last: Option<T.Count>, r: Reading)
    ensures
      var b := Actions(cfg, last, r);
      && |b| >= 1 && b[0] == Sampled(r.count, Delta(last, r.count))
      && (cfg.telemetry ==> |b| >= 2 && b[1] == Recorded(r.count))
      && (forall k :: 0 < k < |b| ==> !b[k].Sampled? && (b[k].Recorded? ==> cfg.telemetry && k == 1))
      && (!cfg.telemetry ==> forall k :: 0 <= k < |b| ==> !b[k].RecordedRestart?)
      && (r.count >= cfg.critical ==> Autosave(r.autosaveOk) in b)
      && (forall k :: 0 <= k < |b| && b[k].Autosave? ==> b[k].ok == r.autosaveOk)
  {
    if r.count >= cfg.critical {
      assert Actions(cfg, last, r)[if cfg.telemetry then 2 else 1] == Autosave(r.autosaveOk);
    }
  }

  lemma BlockShape(cfg: Config, last: Option<T.Count>, r: Reading)
    ensures
      var b := Actions(cfg, last, r);
      && |b| >= 1 && b[0].Sampled?
      && (forall k :: 0 <= k < |b| ==> (b[k].EmitRestart? <==> k > 0 && b[k - 1].Autosave?))
      && (cfg.telemetry ==> forall k :: 0 <= k < |b| ==> (b[k].EmitRestart? <==> k < |b| - 1 && b[k + 1].RecordedRestart?))
      && !b[|b| - 1].Autosave? && (cfg.telemetry ==> !b[|b| - 1].EmitRestart?)
  {
  }

  /**
   * The reported growth is 0 right after start-up and right after every
   * restart; otherwise it is the growth since the previous tick, if any.
   */
  lemma DeltaMeansGrowth(cfg: Config, rs: seq<Reading>, n: nat, i: nat)
    requires cfg.warmup <= i < n <= |rs|
    ensures
      var at := Offset(cfg, rs, i);
      && at < |Trace(cfg, rs, n)|
      && Trace(cfg, rs, n)[at] ==
         Sampled(rs[i].count,
                 if i == cfg.warmup || rs[i - 1].count >= cfg.critical || rs[i].count <= rs[i - 1].count then 0
                 else rs[i].count - rs[i - 1].count)
  {
    TraceBlocks(cfg, rs, n, i);
    var t := Trace(cfg, rs, n);
    assert t[Offset(cfg, rs, i)] == t[Offset(cfg, rs, i)..Offset(cfg, rs, i + 1)][0];
  }

  // ------------------------------------------------------ the stored rows

  /** How many of the first `n` ticks have stored a sample. */
  function SamplesBefore(cfg: Config, rs: seq<Reading>, n: nat): nat
    requires n <= |rs|
  {
    if n == 0 then 0
    else SamplesBefore(cfg, rs, n - 1) + if cfg.warmup < n && cfg.telemetry && rs[n - 1].sampleStored then 1 else 0
  }

  /** Every tick after warm-up whose insert succeeds stores one row, in the order of the ticks, and there are no others. */
  lemma {:induction false} SampleRows(cfg: Config, rs: seq<Reading>, n: nat, i: nat)
    requires i < n <= |rs|
    ensures |StoredSamples(cfg, rs, n)| == SamplesBefore(cfg, rs, n)
    ensures cfg.warmup <= i && cfg.telemetry && rs[i].sampleStored ==>
      && SamplesBefore(cfg, rs, i) < SamplesBefore(cfg, rs, n)
      && StoredSamples(cfg, rs, n)[SamplesBefore(cfg, rs, i)] == T.Sample(rs[i].now, rs[i].count)
  {
    if n > 1 {
      SampleRows(cfg, rs, n - 1, if i < n - 1 then i else n - 2);
    }
  }

  function RestartsBefore(cfg: Config, rs: seq<Reading>, n: nat): nat
    requires n <= |rs|
  {
    if n == 0 then 0
    else
      RestartsBefore(cfg, rs, n - 1) +
      if cfg.warmup < n && cfg.telemetry && rs[n - 1].count >= cfg.critical && rs[n - 1].restartStored then 1 else 0
  }

  /** The same for the restarts, which are critical ticks. */
  lemma {:induction false} RestartRows(cfg: Config, rs: seq<Reading>, n: nat, i: nat)
    requires i < n <= |rs|
    ensures |StoredRestarts(cfg, rs, n)| == RestartsBefore(cfg, rs, n)
    ensures cfg.warmup <= i && cfg.telemetry && rs[i].count >= cfg.critical && rs[i].restartStored ==>
      && RestartsBefore(cfg, rs, i) < RestartsBefore(cfg, rs, n)
      && StoredRestarts(cfg, rs, n)[RestartsBefore(cfg, rs, i)] == T.Restart(rs[i].now, "GdiLeakCritical")
  {
    if n > 1 {
      RestartRows(cfg, rs, n - 1, if i < n - 1 then i else n - 2);
    }
  }

  // ------------------------------------------------- from leak to backend

  /** A tick after warm-up whose sample reached the store. */
  ghost predicate StoredAt(cfg: Config, rs: seq<Reading>, i: int) {
    cfg.telemetry && cfg.warmup <= i < |rs| && rs[i].sampleStored
  }

  /** The store holds the samples of exactly those ticks. */
  lemma {:induction false} StoredAreReadings(cfg: Config, rs: seq<Reading>, n: nat, s: T.Sample)
    requires n <= |rs|
    ensures s in StoredSamples(cfg, rs, n) <==> exists i :: StoredAt(cfg, rs, i) && i < n && s == T.Sample(rs[i].now, rs[i].count)
  {
    if n > cfg.warmup {
      StoredAreReadings(cfg, rs, n - 1, s);
      if s == T.Sample(rs[n - 1].now, rs[n - 1].count) && cfg.telemetry && rs[n - 1].sampleStored {
        assert StoredAt(cfg, rs, n - 1);
      }
    }
  }

  /** Tick `i` of session `k` put `s` into the log. */
  ghost predicate LoggedAt(sessions: seq<Session>, s: T.Sample, k: int, i: int) {
    && 0 <= k < |sessions| && StoredAt(sessions[k].cfg, sessions[k].readings, i)
    && s == T.Sample(sessions[k].readings[i].now, sessions[k].readings[i].count)
  }

  /** What the sessions logged, the last one logged or one before it. */
  lemma LoggedByLast(sessions: seq<Session>, s: T.Sample)
    requires sessions != []
    ensures
      var n := |sessions| - 1;
      var last := sessions[n];
      (exists k, i :: LoggedAt(sessions, s, k, i))
      <==>
      || (exists k, i :: LoggedAt(sessions[..n], s, k, i))
      || exists i :: StoredAt(last.cfg, last.readings, i) && i < |last.readings|
                     && s == T.Sample(last.readings[i].now, last.readings[i].count)
  {
    var n := |sessions| - 1;
    var last := sessions[n];
    if k, i :| LoggedAt(sessions[..n], s, k, i) {
      assert LoggedAt(sessions, s, k, i);
    }
    if i :| StoredAt(last.cfg, last.readings, i) && s == T.Sample(last.readings[i].now, last.readings[i].count) {
      assert LoggedAt(sessions, s, n, i);
    }
    if k, i :| LoggedAt(sessions, s, k, i) {
      if k < n {
        assert LoggedAt(sessions[..n], s, k, i);
      } else {
        assert StoredAt(last.cfg, last.readings, i);
      }
    }
  }

  /** The log holds what it held before and what some tick of some session stored. */
  lemma {:induction false} LogHoldsSessions(earlier: seq<T.Sample>, sessions: seq<Session>, s: T.Sample)
    ensures s in LogAfter(earlier, sessions) <==> s in earlier || exists k, i :: LoggedAt(sessions, s, k, i)
  {
    if sessions != [] {
      var n := |sessions| - 1;
      var last := sessions[n];
      LogHoldsSessions(earlier, sessions[..n], s);
      StoredAreReadings(last.cfg, last.readings, |last.readings|, s);
      LoggedByLast(sessions, s);
      assert LogAfter(earlier, sessions) ==
             LogAfter(earlier, sessions[..n]) + StoredSamples(last.cfg, last.readings, |last.readings|);
    }
  }

  /** A sample that makes CEF required at time `now`. */
  predicate IsLeak(s: T.Sample, now: int) { s.ts >= now - 604_800 && s.count >= 8500 }

  lemma RequiredIffLeakLogged(log: T.Log, now: int)
    ensures T.RecommendCef(log, now) == T.Required <==> log.readable && exists s :: s in log.rows && IsLeak(s, now)
  {
    T.RequiredIffLeakSeen(log, now);
    if i :| T.ThisWeek(log.rows, now, i) && log.rows[i].count >= 8500 {
      assert log.rows[i] in log.rows && IsLeak(log.rows[i], now);
    }
    if s :| s in log.rows && IsLeak(s, now) {
      var i :| 0 <= i < |log.rows| && log.rows[i] == s;
      assert T.ThisWeek(log.rows, now, i);
    }
  }

  /** Tick `i` of session `k`, after its warm-up, stored a count of 8500 or more in the seven days before `now`. */
  ghost predicate Leak(sessions: seq<Session>, now: int, k: int, i: int) {
    && 0 <= k < |sessions| && StoredAt(sessions[k].cfg, sessions[k].readings, i)
    && sessions[k].readings[i].now >= now - 604_800 && sessions[k].readings[i].count >= 8500
  }

  /**
   * End to end, over any earlier log and any number of sessions: CEF is
   * required exactly when the log can be read and holds a leak of the last
   * seven days, an old one or one that a tick of one of the sessions stored.
   */
  lemma RequiredIffLeakWatched(earlier: seq<T.Sample>, sessions: seq<Session>, readable: bool, now: int)
    ensures
      T.RecommendCef(T.Log(LogAfter(earlier, sessions), readable), now) == T.Required
      <==> readable && ((exists s :: s in earlier && IsLeak(s, now)) || exists k, i :: Leak(sessions, now, k, i))
  {
    var rows := LogAfter(earlier, sessions);
    RequiredIffLeakLogged(T.Log(rows, readable), now);
    if s :| s in rows && IsLeak(s, now) {
      LogHoldsSessions(earlier, sessions, s);
      if k, i :| LoggedAt(sessions, s, k, i) {
        assert Leak(sessions, now, k, i);
      }
    }
    if s :| s in earlier && IsLeak(s, now) {
      LogHoldsSessions(earlier, sessions, s);
    }
    if k, i :| Leak(sessions, now, k, i) {
      var s := T.Sample(sessions[k].readings[i].now, sessions[k].readings[i].count);
      assert LoggedAt(sessions, s, k, i);
      LogHoldsSessions(earlier, sessions, s);
      assert s in rows && IsLeak(s, now);
    }
  }

  /** Tick `i` of session `k`, after its warm-up, stored a sample in the seven days before `now`. */
  ghost predicate Seen(sessions: seq<Session>, now: int, k: int, i: int) {
    0 <= k < |sessions| && StoredAt(sessions[k].cfg, sessions[k].readings, i) && sessions[k].readings[i].now >= now - 604_800
  }

  lemma UnknownIffNothingLogged(log: T.Log, now: int)
    ensures T.RecommendCef(log, now) == T.Unknown <==> log.readable ==> forall s :: s in log.rows ==> s.ts < now - 604_800
  {
    T.RequiredIffLeakSeen(log, now);
    if i :| T.ThisWeek(log.rows, now, i) {
      assert log.rows[i] in log.rows;
    }
    if s :| s in log.rows && s.ts >= now - 604_800 {
      var i :| 0 <= i < |log.rows| && log.rows[i] == s;
      assert T.ThisWeek(log.rows, now, i);
    }
  }

  lemma UnknownIffNothingSeen(earlier: seq<T.Sample>, sessions: seq<Session>, readable: bool, now: int)
    ensures
      T.RecommendCef(T.Log(LogAfter(earlier, sessions), readable), now) == T.Unknown
      <==> readable ==>
        (forall s :: s in earlier ==> s.ts < now - 604_800) && forall k, i :: !Seen(sessions, now, k, i)
  {
    var rows := LogAfter(earlier, sessions);
    UnknownIffNothingLogged(T.Log(rows, readable), now);
    if s :| s in rows && s.ts >= now - 604_800 {
      LogHoldsSessions(earlier, sessions, s);
      if k, i :| LoggedAt(sessions, s, k, i) {
        assert Seen(sessions, now, k, i);
      }
    }
    if s :| s in earlier && s.ts >= now - 604_800 {
      LogHoldsSessions(earlier, sessions, s);
    }
    if k, i :| Seen(sessions, now, k, i) {
      var s := T.Sample(sessions[k].readings[i].now, sessions[k].readings[i].count);
      assert LoggedAt(sessions, s, k, i);
      LogHoldsSessions(earlier, sessions, s);
      assert s in rows;
    }
  }

  /**
   * The choice of a local Windows 11 machine after any sessions: CEF, unless
   * the log can be read, holds some sample of the last seven days, and holds
   * no leak of that time. Whether a restart was recorded plays no part in it.
   */
  lemma WebView2AfterSessionsIff(earlier: seq<T.Sample>, sessions: seq<Session>, readable: bool, now: int)
    ensures
      B.SelectDefaultBackend(B.Machine(false, true), Some(T.Log(LogAfter(earlier, sessions), readable)), now) == B.WebView2
      <==>
      && readable
      && ((exists s :: s in earlier && s.ts >= now - 604_800) || exists k, i :: Seen(sessions, now, k, i))
      && (forall s :: s in earlier ==> !IsLeak(s, now)) && forall k, i :: !Leak(sessions, now, k, i)
  {
    RequiredIffLeakWatched(earlier, sessions, readable, now);
    UnknownIffNothingSeen(earlier, sessions, readable, now);
  }

  /**
   * Hence a tick of the last seven days, in whatever session, that restarts
   * the web view and whose sample is stored makes it choose CEF, if the
   * restart threshold is not below the advice threshold. A log that cannot be
   * read does so as well.
   */
  lemma RestartLeadsToCef(earlier: seq<T.Sample>, sessions: seq<Session>, readable: bool, now: int, k: nat, i: nat)
    requires k < |sessions| && sessions[k].cfg.critical >= 8500
    requires StoredAt(sessions[k].cfg, sessions[k].readings, i) && sessions[k].readings[i].count >= sessions[k].cfg.critical
    requires sessions[k].readings[i].now >= now - 604_800
    ensures B.SelectDefaultBackend(B.Machine(false, true), Some(T.Log(LogAfter(earlier, sessions), readable)), now) == B.Cef
  {
    assert Leak(sessions, now, k, i);
    RequiredIffLeakWatched(earlier, sessions, readable, now);
  }
}
