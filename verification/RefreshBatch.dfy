/**
 * `refresh_batch`: one retrying task per URL behind a counting semaphore.
 *
 * The spawner, the tasks and the joiner are modelled as a step relation in
 * which the scheduler may pick any enabled step. The proofs are about every
 * state of every run, hence about every interleaving.
 */
module RefreshBatch {
  import opened Common
  import opened Refresh

  datatype Batch = Batch(urls: seq<string>, concurrency: nat, policy: RetryPolicy, fetch: Fetcher)
  {
    function Permits(): (n: nat)
      ensures n >= 1 && n >= concurrency
      ensures n == 1 || n == concurrency
    {
      if concurrency < 1 then 1 else concurrency
    }

    /** The outcome of URL `i` if it were refreshed alone. */
    function Alone(i: nat): Outcome
      requires i < |urls|
    {
      RefreshedAlone(urls[i], i, policy, fetch)
    }

    /** The fetcher calls that takes. */
    function CallsFor(i: nat): nat
      requires i < |urls|
    {
      CallsAlone(urls[i], i, policy, fetch)
    }
  }

  /**
   * A spawned task: not yet polled, waiting for attempt `attempt` to answer,
   * sleeping after it, or finished after `calls` fetcher calls. Unfinished
   * tasks hold a permit.
   */
  datatype Task =
    | Starting
    | Fetching(attempt: nat, lastErr: string)
    | Sleeping(attempt: nat, lastErr: string)
    | Finished(outcome: Outcome, calls: nat)

  /**
   * `holding`: the spawner has a permit for the next task. `slots[i]` is the
   * outcome the joiner filed for URL `i`; `joined` handles have been awaited.
   */
  datatype State = State(permits: nat, holding: bool, tasks: seq<Task>, joined: nat, slots: seq<Option<Outcome>>)

  datatype Step = Acquire | Spawn | Begin(i: nat) | Answer(i: nat) | Wake(i: nat) | Join

  function Start(b: Batch): State {
    State(b.Permits(), false, [], 0, seq(|b.urls|, _ => None))
  }

  predicate Enabled(b: Batch, s: State, step: Step) {
    match step
    case Acquire => !s.holding && |s.tasks| < |b.urls| && s.permits > 0
    case Spawn => s.holding && |s.tasks| < |b.urls|
    case Begin(i) => i < |s.tasks| <= |b.urls| && s.tasks[i].Starting?
    case Answer(i) => i < |s.tasks| <= |b.urls| && s.tasks[i].Fetching?
    case Wake(i) => i < |s.tasks| <= |b.urls| && s.tasks[i].Sleeping?
    case Join => |s.tasks| == |b.urls| == |s.slots| && s.joined < |s.tasks| && s.tasks[s.joined].Finished?
  }

  /** A task is finished: its permit goes back. */
  function Finish(s: State, i: nat, outcome: Outcome, calls: nat): State
    requires i < |s.tasks|
  {
    s.(tasks := s.tasks[i := Finished(outcome, calls)], permits := s.permits + 1)
  }

  function Next(b: Batch, s: State, step: Step): State
    requires Enabled(b, s, step)
  {
    match step
    case Acquire => s.(holding := true, permits := s.permits - 1)
    case Spawn => s.(holding := false, tasks := s.tasks + [Starting])
    case Begin(i) =>
      (match SkipReason(b.urls[i])
       case Some(reason) => Finish(s, i, Outcome(b.urls[i], Skipped(reason)), 0)
       case None =>
         if b.policy.maxAttempts == 0 then Finish(s, i, Outcome(b.urls[i], Failed(0, "")), 0)
         else s.(tasks := s.tasks[i := Fetching(1, "")]))
    case Answer(i) =>
      var k := s.tasks[i].attempt;
      (match b.fetch(i, k)
       case Fetched(expiry) => Finish(s, i, Outcome(b.urls[i], Refreshed(expiry)), k)
       case FetchError(reason) =>
         if k >= b.policy.maxAttempts then Finish(s, i, Outcome(b.urls[i], Failed(b.policy.maxAttempts, reason)), k)
         else s.(tasks := s.tasks[i := Sleeping(k, reason)]))
    case Wake(i) => s.(tasks := s.tasks[i := Fetching(s.tasks[i].attempt + 1, s.tasks[i].lastErr)])
    case Join => s.(joined := s.joined + 1, slots := s.slots[s.joined := Some(s.tasks[s.joined].outcome)])
  }

  /** Every state a scheduler can bring the batch to, one step at a time. */
  ghost predicate Run(b: Batch, states: seq<State>) {
    && states != [] && states[0] == Start(b)
    && forall k :: 0 <= k < |states| - 1 ==> Follows(b, states[k], states[k + 1])
  }

  ghost predicate Follows(b: Batch, s: State, t: State) {
    exists step :: Enabled(b, s, step) && t == Next(b, s, step)
  }

  predicate Done(b: Batch, s: State) { s.joined == |b.urls| }

  // ----------------------------------------------------------- the invariant

  function Live(tasks: seq<Task>): nat {
    if tasks == [] then 0 else Live(tasks[..|tasks| - 1]) + if tasks[|tasks| - 1].Finished? then 0 else 1
  }

  predicate InFlight(t: Task) { t.Fetching? }

  function CountInFlight(tasks: seq<Task>): nat {
    if tasks == [] then 0 else CountInFlight(tasks[..|tasks| - 1]) + if InFlight(tasks[|tasks| - 1]) then 1 else 0
  }

  /** Left alone, the task ends with the outcome of the sequential refresh. */
  ghost predicate OnTrack(b: Batch, i: nat, t: Task)
    requires i < |b.urls|
  {
    match t
    case Starting => true
    case Fetching(k, lastErr) =>
      && 1 <= k <= b.policy.maxAttempts
      && b.Alone(i) == Retry(b.urls[i], i, b.policy, b.fetch, k, lastErr)
      && b.CallsFor(i) == RetryCalls(i, b.policy, b.fetch, k)
    case Sleeping(k, lastErr) =>
      && 1 <= k < b.policy.maxAttempts
      && b.Alone(i) == Retry(b.urls[i], i, b.policy, b.fetch, k + 1, lastErr)
      && b.CallsFor(i) == RetryCalls(i, b.policy, b.fetch, k + 1)
    case Finished(outcome, calls) => outcome == b.Alone(i) && calls == b.CallsFor(i)
  }

  ghost predicate Invariant(b: Batch, s: State) {
    && |s.tasks| <= |b.urls| && |s.slots| == |b.urls| && s.joined <= |s.tasks|
    && (s.joined > 0 ==> |s.tasks| == |b.urls|)
    && (s.holding ==> |s.tasks| < |b.urls|)
    && s.permits + (if s.holding then 1 else 0) + Live(s.tasks) == b.Permits()
    && (forall i :: 0 <= i < |s.tasks| ==> OnTrack(b, i, s.tasks[i]))
    && (forall i :: 0 <= i < s.joined ==> s.tasks[i].Finished?)
    && (forall i :: 0 <= i < |s.slots| ==> s.slots[i] == if i < s.joined then Some(b.Alone(i)) else None)
  }

  lemma {:induction false} LiveUpdate(tasks: seq<Task>, i: nat, t: Task)
    requires i < |tasks| && !tasks[i].Finished?
    ensures Live(tasks) == Live(tasks[i := t]) + if t.Finished? then 1 else 0
  {
    var last := |tasks| - 1;
    var updated := tasks[i := t];
    if i == last {
      assert updated[..last] == tasks[..last];
    } else {
      assert updated[..last] == tasks[..last][i := t];
      LiveUpdate(tasks[..last], i, t);
    }
  }

  lemma LiveAppend(tasks: seq<Task>, t: Task)
    ensures Live(tasks + [t]) == Live(tasks) + if t.Finished? then 0 else 1
  {
    assert (tasks + [t])[..|tasks|] == tasks;
  }

  /** What a task that changes does to the invariant. */
  lemma TaskStepKeeps(b: Batch, s: State, i: nat, t: Task)
    requires Invariant(b, s) && i < |s.tasks| && !s.tasks[i].Finished? && OnTrack(b, i, t)
    ensures Invariant(b, s.(tasks := s.tasks[i := t], permits := s.permits + if t.Finished? then 1 else 0))
  {
    LiveUpdate(s.tasks, i, t);
  }

  /** Both outcomes of an attempt continue the sequential retry loop. */
  lemma AnswerOnTrack(b: Batch, i: nat, k: nat, lastErr: string)
    requires i < |b.urls| && OnTrack(b, i, Fetching(k, lastErr))
    ensures
      match b.fetch(i, k)
      case Fetched(expiry) => OnTrack(b, i, Finished(Outcome(b.urls[i], Refreshed(expiry)), k))
      case FetchError(reason) =>
        if k >= b.policy.maxAttempts
        then OnTrack(b, i, Finished(Outcome(b.urls[i], Failed(b.policy.maxAttempts, reason)), k))
        else OnTrack(b, i, Sleeping(k, reason))
  {
    if k == b.policy.maxAttempts && b.fetch(i, k).FetchError? {
      var reason := b.fetch(i, k).reason;
      assert Retry(b.urls[i], i, b.policy, b.fetch, k + 1, reason)
          == Outcome(b.urls[i], Failed(b.policy.maxAttempts, reason));
      assert RetryCalls(i, b.policy, b.fetch, k + 1) == k;
    }
  }

  predicate IsTaskStep(step: Step, i: nat) { step == Begin(i) || step == Answer(i) || step == Wake(i) }

  lemma TaskStepOnTrack(b: Batch, s: State, step: Step, i: nat)
    requires Invariant(b, s) && Enabled(b, s, step) && IsTaskStep(step, i)
    ensures
      var t := Next(b, s, step);
      && |t.tasks| == |s.tasks| && OnTrack(b, i, t.tasks[i])
      && t == s.(tasks := s.tasks[i := t.tasks[i]], permits := s.permits + if t.tasks[i].Finished? then 1 else 0)
  {
    assert OnTrack(b, i, s.tasks[i]);
    if step.Answer? {
      AnswerOnTrack(b, i, s.tasks[i].attempt, s.tasks[i].lastErr);
    }
  }

  lemma JoinKeepsInvariant(b: Batch, s: State)
    requires Invariant(b, s) && Enabled(b, s, Join)
    ensures Invariant(b, Next(b, s, Join))
  {
    assert OnTrack(b, s.joined, s.tasks[s.joined]);
  }

  lemma SpawnKeepsInvariant(b: Batch, s: State, step: Step)
    requires Invariant(b, s) && Enabled(b, s, step) && (step == Acquire || step == Spawn)
    ensures Invariant(b, Next(b, s, step))
  {
    LiveAppend(s.tasks, Starting);
  }

  lemma StepKeepsInvariant(b: Batch, s: State, step: Step)
    requires Invariant(b, s) && Enabled(b, s, step)
    ensures Invariant(b, Next(b, s, step))
  {
    match step
    case Acquire => SpawnKeepsInvariant(b, s, step);
    case Spawn => SpawnKeepsInvariant(b, s, step);
    case Join => JoinKeepsInvariant(b, s);
    case Begin(i) => TaskStepKeepsInvariant(b, s, step, i);
    case Answer(i) => TaskStepKeepsInvariant(b, s, step, i);
    case Wake(i) => TaskStepKeepsInvariant(b, s, step, i);
  }

  lemma TaskStepKeepsInvariant(b: Batch, s: State, step: Step, i: nat)
    requires Invariant(b, s) && Enabled(b, s, step) && IsTaskStep(step, i)
    ensures Invariant(b, Next(b, s, step))
  {
    TaskStepOnTrack(b, s, step, i);
    TaskStepKeeps(b, s, i, Next(b, s, step).tasks[i]);
  }

  lemma {:induction false} RunKeepsInvariant(b: Batch, states: seq<State>, k: nat)
    requires Run(b, states) && k < |states|
    ensures Invariant(b, states[k])
  {
    if k > 0 {
      RunKeepsInvariant(b, states, k - 1);
      assert Follows(b, states[k - 1], states[k - 1 + 1]);
      var step :| Enabled(b, states[k - 1], step) && states[k] == Next(b, states[k - 1], step);
      StepKeepsInvariant(b, states[k - 1], step);
    }
  }

  // --------------------------------------------------------- the semaphore

  lemma {:induction false} InFlightIsLive(tasks: seq<Task>)
    ensures CountInFlight(tasks) <= Live(tasks)
  {
    if tasks != [] {
      InFlightIsLive(tasks[..|tasks| - 1]);
    }
  }

  /** Permits are conserved, so never more fetches are in flight than permits exist. */
  lemma PermitsConserved(b: Batch, states: seq<State>, k: nat)
    requires Run(b, states) && k < |states|
    ensures
      var s := states[k];
      && s.permits + (if s.holding then 1 else 0) + Live(s.tasks) == b.Permits()
      && CountInFlight(s.tasks) <= b.Permits()
  {
    RunKeepsInvariant(b, states, k);
    InFlightIsLive(states[k].tasks);
  }

  // ---------------------------------------------------------------- progress

  lemma {:induction false} SomeLive(tasks: seq<Task>)
    ensures Live(tasks) == 0 <==> forall i :: 0 <= i < |tasks| ==> tasks[i].Finished?
  {
    if tasks != [] {
      SomeLive(tasks[..|tasks| - 1]);
    }
  }

  /** Until every handle is joined some step is enabled: the batch never deadlocks. */
  lemma AlwaysProgress(b: Batch, s: State)
    requires Invariant(b, s) && !Done(b, s)
    ensures exists step :: Enabled(b, s, step)
  {
    SomeLive(s.tasks);
    if Live(s.tasks) > 0 {
      var i :| 0 <= i < |s.tasks| && !s.tasks[i].Finished?;
      var step := if s.tasks[i].Starting? then Begin(i) else if s.tasks[i].Fetching? then Answer(i) else Wake(i);
      assert Enabled(b, s, step);
    } else if |s.tasks| < |b.urls| {
      var step := if s.holding then Spawn else Acquire;
      assert Enabled(b, s, step);
    } else {
      assert Enabled(b, s, Join);
    }
  }

  /** Steps a task can still take. */
  function TaskWork(max: nat, t: Task): nat {
    match t
    case Starting => 2 * max + 1
    case Fetching(k, _) => if k <= max then 2 * (max - k) + 1 else 1
    case Sleeping(k, _) => if k < max then 2 * (max - k) else 0
    case Finished(_, _) => 0
  }

  function TotalWork(max: nat, tasks: seq<Task>): nat {
    if tasks == [] then 0 else TotalWork(max, tasks[..|tasks| - 1]) + TaskWork(max, tasks[|tasks| - 1])
  }

  /** Acquiring, spawning and running one unspawned URL. */
  function UnspawnedWork(max: nat, n: nat): nat { n * (2 * max + 3) }

  function Measure(b: Batch, s: State): int {
    var max := b.policy.maxAttempts;
    (if |s.tasks| <= |b.urls| then UnspawnedWork(max, |b.urls| - |s.tasks|) else 0)
    - (if s.holding then 1 else 0) + TotalWork(max, s.tasks) + (|b.urls| - s.joined)
  }

  lemma {:induction false} WorkUpdate(max: nat, tasks: seq<Task>, i: nat, t: Task)
    requires i < |tasks|
    ensures TotalWork(max, tasks[i := t]) == TotalWork(max, tasks) - TaskWork(max, tasks[i]) + TaskWork(max, t)
  {
    var last := |tasks| - 1;
    var updated := tasks[i := t];
    if i == last {
      assert updated[..last] == tasks[..last];
    } else {
      assert updated[..last] == tasks[..last][i := t];
      WorkUpdate(max, tasks[..last], i, t);
    }
  }

  /** Every step uses up some of a finite amount of work. */
  lemma StepDecreasesMeasure(b: Batch, s: State, step: Step)
    requires Invariant(b, s) && Enabled(b, s, step)
    ensures 0 <= Measure(b, Next(b, s, step)) < Measure(b, s)
  {
    StepKeepsInvariant(b, s, step);
    MeasureNatural(b, Next(b, s, step));
    match step
    case Spawn => SpawnWorks(b, s);
    case Begin(i) => TaskStepWorks(b, s, step, i);
    case Answer(i) => TaskStepWorks(b, s, step, i);
    case Wake(i) => TaskStepWorks(b, s, step, i);
    case Acquire =>
    case Join =>
  }

  lemma SpawnWorks(b: Batch, s: State)
    requires Enabled(b, s, Spawn)
    ensures Measure(b, Next(b, s, Spawn)) < Measure(b, s)
  {
    var max, n := b.policy.maxAttempts, |b.urls| - |s.tasks|;
    assert (s.tasks + [Starting])[..|s.tasks|] == s.tasks;
    assert UnspawnedWork(max, n) == UnspawnedWork(max, n - 1) + 2 * max + 3;
  }

  lemma LessWork(b: Batch, s: State, step: Step, i: nat)
    requires Invariant(b, s) && Enabled(b, s, step) && IsTaskStep(step, i)
    ensures TaskWork(b.policy.maxAttempts, Next(b, s, step).tasks[i]) < TaskWork(b.policy.maxAttempts, s.tasks[i])
  {
    assert OnTrack(b, i, s.tasks[i]);
  }

  lemma TaskStepWorks(b: Batch, s: State, step: Step, i: nat)
    requires Invariant(b, s) && Enabled(b, s, step) && IsTaskStep(step, i)
    ensures Measure(b, Next(b, s, step)) < Measure(b, s)
  {
    var t := Next(b, s, step);
    var max := b.policy.maxAttempts;
    TaskStepOnTrack(b, s, step, i);
    LessWork(b, s, step, i);
    WorkUpdate(max, s.tasks, i, t.tasks[i]);
  }

  lemma MeasureNatural(b: Batch, s: State)
    requires Invariant(b, s)
    ensures Measure(b, s) >= 0
  {
    if s.holding {
      var n := |b.urls| - |s.tasks|;
      assert UnspawnedWork(b.policy.maxAttempts, n) >= n;
    }
  }

  /** No run is longer than the work there is, so every run can be completed. */
  lemma {:induction false} RunsAreBounded(b: Batch, states: seq<State>)
    requires Run(b, states)
    ensures |states| - 1 + Measure(b, states[|states| - 1]) <= Measure(b, Start(b))
    ensures 0 <= Measure(b, states[|states| - 1])
    ensures Measure(b, Start(b)) == UnspawnedWork(b.policy.maxAttempts, |b.urls|) + |b.urls|
    decreases |states|
  {
    var n := |states|;
    RunKeepsInvariant(b, states, n - 1);
    MeasureNatural(b, states[n - 1]);
    if n > 1 {
      assert Run(b, states[..n - 1]);
      RunsAreBounded(b, states[..n - 1]);
      RunKeepsInvariant(b, states, n - 2);
      assert Follows(b, states[n - 2], states[n - 2 + 1]);
      FollowingDecreases(b, states[n - 2], states[n - 1]);
    }
  }

  lemma FollowingDecreases(b: Batch, s: State, t: State)
    requires Invariant(b, s) && Follows(b, s, t)
    ensures Measure(b, t) < Measure(b, s)
  {
    var step :| Enabled(b, s, step) && t == Next(b, s, step);
    StepDecreasesMeasure(b, s, step);
  }

  // -------------------------------------------------------------- the report

  datatype Report = Report(total: nat, refreshed: nat, skipped: nat, failed: nat, outcomes: seq<Outcome>)

  function CountRefreshed(os: seq<Outcome>): nat {
    if os == [] then 0 else CountRefreshed(os[..|os| - 1]) + if os[|os| - 1].status.Refreshed? then 1 else 0
  }

  function CountSkipped(os: seq<Outcome>): nat {
    if os == [] then 0 else CountSkipped(os[..|os| - 1]) + if os[|os| - 1].status.Skipped? then 1 else 0
  }

  function CountFailed(os: seq<Outcome>): nat {
    if os == [] then 0 else CountFailed(os[..|os| - 1]) + if os[|os| - 1].status.Failed? then 1 else 0
  }

  /** `into_iter().flatten()`: the filled slots, in order. */
  function Filled(slots: seq<Option<Outcome>>): seq<Outcome> {
    if slots == [] then []
    else
      var rest := Filled(slots[..|slots| - 1]);
      match slots[|slots| - 1] case Some(o) => rest + [o] case None => rest
  }

  /** The closing loop of `refresh_batch`: tally and collect the slots. */
  method BuildReport(slots: seq<Option<Outcome>>) returns (r: Report)
    ensures r.total == |slots| && r.outcomes == Filled(slots)
    ensures r.refreshed == CountRefreshed(r.outcomes)
    ensures r.skipped == CountSkipped(r.outcomes)
    ensures r.failed == CountFailed(r.outcomes)
    ensures r.refreshed + r.skipped + r.failed == |r.outcomes|
  {
    r := Report(|slots|, 0, 0, 0, []);
    for i := 0 to |slots|
      invariant r.total == |slots| && r.outcomes == Filled(slots[..i])
      invariant r.refreshed == CountRefreshed(r.outcomes)
      invariant r.skipped == CountSkipped(r.outcomes)
      invariant r.failed == CountFailed(r.outcomes)
      invariant r.refreshed + r.skipped + r.failed == |r.outcomes|
    {
      assert slots[..i + 1][..i] == slots[..i];
      if slots[i].Some? {
        var o := slots[i].value;
        assert (r.outcomes + [o])[..|r.outcomes|] == r.outcomes;
        match o.status {
          case Refreshed(_) => r := r.(refreshed := r.refreshed + 1);
          case Skipped(_) => r := r.(skipped := r.skipped + 1);
          case Failed(_, _) => r := r.(failed := r.failed + 1);
        }
        r := r.(outcomes := r.outcomes + [o]);
      }
    }
    assert slots[..|slots|] == slots;
  }

  /** The sequential batch: every URL refreshed alone, in order. */
  function Sequential(b: Batch): seq<Outcome> {
    seq(|b.urls|, i requires 0 <= i < |b.urls| => b.Alone(i))
  }

  lemma {:induction false} FilledAll(slots: seq<Option<Outcome>>, os: seq<Outcome>)
    requires |slots| == |os| && forall i :: 0 <= i < |os| ==> slots[i] == Some(os[i])
    ensures Filled(slots) == os
  {
    if slots != [] {
      FilledAll(slots[..|slots| - 1], os[..|os| - 1]);
      assert os == os[..|os| - 1] + [os[|os| - 1]];
    }
  }

  /**
   * Schedule independence: whatever the interleaving, when the last handle is
   * joined the collected outcomes are those of the sequential batch, and the
   * fetcher has been called for every URL as often as the sequential batch
   * would have.
   */
  lemma EveryScheduleIsSequential(b: Batch, states: seq<State>)
    requires Run(b, states) && Done(b, states[|states| - 1])
    ensures Filled(states[|states| - 1].slots) == Sequential(b)
    ensures |states[|states| - 1].tasks| == |b.urls|
    ensures forall i :: 0 <= i < |b.urls| ==>
      states[|states| - 1].tasks[i].Finished? && states[|states| - 1].tasks[i].calls == b.CallsFor(i)
  {
    var last := states[|states| - 1];
    RunKeepsInvariant(b, states, |states| - 1);
    FilledAll(last.slots, Sequential(b));
    assert forall i :: 0 <= i < |last.tasks| ==> OnTrack(b, i, last.tasks[i]);
  }

  lemma {:induction false} RetryKeepsUrl(url: string, index: nat, policy: RetryPolicy, fetch: Fetcher, k: nat, lastErr: string)
    requires 1 <= k <= policy.maxAttempts + 1
    ensures Retry(url, index, policy, fetch, k, lastErr).url == url
    decreases policy.maxAttempts + 1 - k
  {
    if k <= policy.maxAttempts && fetch(index, k).FetchError? {
      RetryKeepsUrl(url, index, policy, fetch, k + 1, fetch(index, k).reason);
    }
  }

  /** Outcomes are parallel to the input: position `i` is about URL `i`. */
  lemma OutcomesAreParallel(b: Batch, i: nat)
    requires i < |b.urls|
    ensures Sequential(b)[i].url == b.urls[i]
  {
    if SkipReason(b.urls[i]) == None {
      RetryKeepsUrl(b.urls[i], i, b.policy, b.fetch, 1, "");
    }
  }

  /**
   * `refresh_batch` itself, under a scheduler that is asked at every turn for
   * any enabled step. It terminates and reports the sequential outcomes.
   */
  method RefreshAll(b: Batch) returns (r: Report)
    ensures r.outcomes == Sequential(b) && r.total == |b.urls|
    ensures forall i :: 0 <= i < |b.urls| ==> r.outcomes[i].url == b.urls[i]
    ensures r.refreshed + r.skipped + r.failed == r.total
    ensures r.refreshed == CountRefreshed(Sequential(b))
    ensures r.skipped == CountSkipped(Sequential(b))
    ensures r.failed == CountFailed(Sequential(b))
  {
    var s := Start(b);
    MeasureNatural(b, s);
    while !Done(b, s)
      invariant Invariant(b, s)
      decreases Measure(b, s)
    {
      AlwaysProgress(b, s);
      var step: Step :| Enabled(b, s, step);
      StepDecreasesMeasure(b, s, step);
      StepKeepsInvariant(b, s, step);
      s := Next(b, s, step);
    }
    r := BuildReport(s.slots);
    FilledAll(s.slots, Sequential(b));
    forall i | 0 <= i < |b.urls|
      ensures Sequential(b)[i].url == b.urls[i]
    {
      OutcomesAreParallel(b, i);
    }
  }
}
