/**
 * The preload bridge (`window.viscos`): numbered requests to the native side,
 * answered by messages that may come late, twice, out of order, or never.
 */
module JsBridge {
  import opened Common

  // -------------------------------------------------------------------- data

  /** A JavaScript value as far as the bridge looks at it. */
  datatype Value = Undefined | Null | Data(text: string)

  datatype Settlement = Resolved(value: Value) | Rejected(reason: Value)

  /** A message from the native side after `JSON.parse`. */
  datatype Incoming =
    | NotJson
    | Response(id: int, result: Value, error: Value)  // kind "response" with a numeric id
    | Push(payload: Value)                            // kind "event"
    | OtherMessage

  /** A call of the `resolve` or `reject` function of a promise. */
  datatype Call = Call(promise: nat, settlement: Settlement)

  /** A handler invocation with an event payload. */
  datatype Delivery = Delivery(handler: nat, payload: Value)

  /** Who owns a slot of the `window` object. */
  datatype Owner = Nobody | Bridge | Foreign

  /**
   * Promises are numbered in creation order. `pending` maps request ids to the
   * promise whose functions are stored under them; `sending` holds the ids
   * whose `postMessage` has neither returned nor thrown yet.
   */
  datatype State = State(
    nextId: nat,
    pending: map<int, nat>,
    sending: set<int>,
    calls: seq<Call>,
    handlers: seq<nat>,
    delivered: seq<Delivery>)

  const START := State(0, map[], {}, [], [], [])

  /**
   * Sending is not atomic: responses may already arrive, and other requests
   * may be issued, while `postMessage` is running.
   */
  datatype Step =
    | Issue
    | SendReturns(id: int)
    | SendThrows(id: int, error: Value)
    | Receive(message: Incoming)
    | Subscribe(handler: nat)
    | Unsubscribe(handler: nat)

  /** `error` wins unless it is `undefined` or `null`. */
  function SettlementOf(result: Value, error: Value): Settlement {
    if error != Undefined && error != Null then Rejected(error) else Resolved(result)
  }

  function Without(handlers: seq<nat>, h: nat): seq<nat> {
    if handlers == [] then []
    else if handlers[0] == h then Without(handlers[1..], h)
    else [handlers[0]] + Without(handlers[1..], h)
  }

  function Deliveries(handlers: seq<nat>, payload: Value): seq<Delivery> {
    seq(|handlers|, i requires 0 <= i < |handlers| => Delivery(handlers[i], payload))
  }

  /** What the handlers that throw are caught with, in the order they are called. */
  function Thrown(handlers: seq<nat>, throwing: map<nat, Value>): seq<Value> {
    if handlers == [] then []
    else
      var before, last := Thrown(handlers[..|handlers| - 1], throwing), handlers[|handlers| - 1];
      if last in throwing then before + [throwing[last]] else before
  }

  function Handle(s: State, m: Incoming): State {
    match m
    case Response(id, result, error) =>
      if id !in s.pending then s
      else s.(pending := s.pending - {id}, calls := s.calls + [Call(s.pending[id], SettlementOf(result, error))])
    case Push(payload) => s.(delivered := s.delivered + Deliveries(s.handlers, payload))
    case _ => s
  }

  predicate Enabled(s: State, step: Step) {
    match step
    case SendReturns(id) => id in s.sending
    case SendThrows(id, _) => id in s.sending && id >= 1
    case _ => true
  }

  /** `listening`: the message listener of `window.ipc` is the bridge's own. */
  function Next(s: State, step: Step, listening: bool): State
    requires Enabled(s, step)
  {
    match step
    case Issue =>
      var id := s.nextId + 1;
      s.(nextId := id, pending := s.pending[id := s.nextId], sending := s.sending + {id})
    case SendReturns(id) => s.(sending := s.sending - {id})
    case SendThrows(id, error) =>
      s.(sending := s.sending - {id}, pending := s.pending - {id}, calls := s.calls + [Call(id - 1, Rejected(error))])
    case Receive(m) => if listening then Handle(s, m) else s
    case Subscribe(h) => if h in s.handlers then s else s.(handlers := s.handlers + [h])
    case Unsubscribe(h) => s.(handlers := Without(s.handlers, h))
  }

  // --------------------------------------------------------------- the object

  /** The module-level state of the script and its slots of `window`. */
  class Preload {
    var nextId: nat
    var pending: map<int, nat>
    var sending: set<int>
    var calls: seq<Call>
    var handlers: seq<nat>
    var delivered: seq<Delivery>
    var errors: seq<Value>  // what the console has been told that handlers threw
    var installed: bool
    var onmessage: Owner
    var global: Owner

    function Contents(): State
      reads this
    {
      State(nextId, pending, sending, calls, handlers, delivered)
    }

    constructor (onmessage: Owner, global: Owner)
      ensures Contents() == START && errors == [] && !installed && this.onmessage == onmessage && this.global == global
    {
      nextId, pending, sending, calls, handlers, delivered, errors := 0, map[], {}, [], [], [], [];
      installed, this.onmessage, this.global := false, onmessage, global;
    }

    /** `ensureIpcBridge`: attach the listener unless one is there already. */
    method EnsureIpcBridge()
      modifies this`onmessage
      ensures onmessage == if old(onmessage) == Nobody then Bridge else old(onmessage)
    {
      if onmessage == Nobody {
        onmessage := Bridge;
      }
    }

    /** `installViscosGlobal`: creates the API once and publishes it if nobody has. */
    method InstallViscosGlobal()
      modifies this`installed, this`onmessage, this`global, this`handlers
      ensures installed
      ensures global == if old(global) == Nobody then Bridge else old(global)
      ensures onmessage == if !old(installed) && old(onmessage) == Nobody then Bridge else old(onmessage)
      ensures handlers == if old(installed) then old(handlers) else []
    {
      if !installed {
        EnsureIpcBridge();
        handlers := [];
        installed := true;
      }
      if global == Nobody {
        global := Bridge;
      }
    }

    /** `onEvent`: a handler is a member once, in the place where it was first added. */
    method OnEvent(handler: nat)
      modifies this`handlers
      ensures Contents() == Next(old(Contents()), Subscribe(handler), onmessage == Bridge)
    {
      if handler !in handlers {
        handlers := handlers + [handler];
      }
    }

    /** The clean-up function that `onEvent` returns; calling it again does no harm. */
    method CleanUp(handler: nat)
      modifies this`handlers
      ensures Contents() == Next(old(Contents()), Unsubscribe(handler), onmessage == Bridge)
    {
      handlers := Without(handlers, handler);
    }

    /** The part of `invoke` before `postMessage` is entered. */
    method Register() returns (id: nat)
      modifies this`nextId, this`pending, this`sending
      ensures id == old(nextId) + 1
      ensures Contents() == Next(old(Contents()), Issue, onmessage == Bridge)
    {
      nextId := nextId + 1;
      id := nextId;
      pending := pending[id := id - 1];
      sending := sending + {id};
    }

    /** The `catch` branch of `invoke`. */
    method FailSend(id: nat, error: Value)
      requires id >= 1 && id in sending
      modifies this`pending, this`sending, this`calls
      ensures Contents() == Next(old(Contents()), SendThrows(id, error), onmessage == Bridge)
    {
      sending := sending - {id};
      pending := pending - {id};
      calls := calls + [Call(id - 1, Rejected(error))];
    }

    /** `throwing`: the handlers that throw on this message, and what. */
    method HandleIncomingMessage(m: Incoming, throwing: map<nat, Value>)
      modifies this`pending, this`calls, this`delivered, this`errors
      ensures Contents() == Handle(old(Contents()), m)
      ensures errors == old(errors) + if m.Push? then Thrown(handlers, throwing) else []
    {
      match m {
        case Response(id, result, error) =>
          if id !in pending {
            return;
          }
          var promise := pending[id];
          pending := pending - {id};
          calls := calls + [Call(promise, SettlementOf(result, error))];
        case Push(payload) =>
          Broadcast(payload, throwing);
        case _ =>
      }
    }

    /** A handler runs on a payload, and returns or throws. */
    method CallHandler(h: nat, payload: Value, throwing: map<nat, Value>) returns (thrown: Option<Value>)
      modifies this`delivered
      ensures delivered == old(delivered) + [Delivery(h, payload)]
      ensures thrown == if h in throwing then Some(throwing[h]) else None
    {
      delivered := delivered + [Delivery(h, payload)];
      thrown := if h in throwing then Some(throwing[h]) else None;
    }

    /** Every subscriber is called, also after one of them has thrown; what is thrown is logged, in order. */
    method Broadcast(payload: Value, throwing: map<nat, Value>)
      modifies this`delivered, this`errors
      ensures delivered == old(delivered) + Deliveries(handlers, payload)
      ensures errors == old(errors) + Thrown(handlers, throwing)
    {
      for i := 0 to |handlers|
        invariant delivered == old(delivered) + Deliveries(handlers[..i], payload)
        invariant errors == old(errors) + Thrown(handlers[..i], throwing)
      {
        assert handlers[..i + 1][..i] == handlers[..i];
        assert Deliveries(handlers[..i + 1], payload) == Deliveries(handlers[..i], payload) + [Delivery(handlers[i], payload)];
        var thrown := CallHandler(handlers[i], payload, throwing);
        if thrown.Some? {
          errors := errors + [thrown.value];
        }
      }
      assert handlers[..|handlers|] == handlers;
    }

    /**
     * `invoke` as a whole: the messages `during` arrive while `postMessage`
     * runs, which then returns or throws.
     */
    method Invoke(during: seq<Incoming>, throwing: map<nat, Value>, thrown: Option<Value>) returns (id: nat)
      modifies this
      ensures id == old(nextId) + 1
      ensures Contents() == AfterAll(old(Contents()), InvokeSteps(id, during, thrown), onmessage == Bridge)
      ensures onmessage == old(onmessage) && installed == old(installed) && global == old(global)
    {
      ghost var before := Contents();
      id := Register();
      AfterAllOne(before, Issue, onmessage == Bridge);
      ReceiveAll(id, during, throwing, before);
      AfterAllAppend(before, [Issue] + Received(during), LastOf(id, thrown), onmessage == Bridge);
      EndSend(id, thrown);
    }

    /** What the host delivers while request `id` is being sent. */
    method ReceiveAll(id: nat, during: seq<Incoming>, throwing: map<nat, Value>, ghost before: State)
      requires id in sending && Contents() == AfterAll(before, [Issue], onmessage == Bridge)
      modifies this`pending, this`calls, this`delivered, this`errors
      ensures Contents() == AfterAll(before, [Issue] + Received(during), onmessage == Bridge)
    {
      for i := 0 to |during|
        invariant Contents() == AfterAll(before, [Issue] + Received(during[..i]), onmessage == Bridge)
      {
        ReceivedSnoc(during, i);
        AfterAllAppend(before, [Issue] + Received(during[..i]), Receive(during[i]), onmessage == Bridge);
        Dispatch(during[i], throwing);
      }
      assert during[..|during|] == during;
    }

    /** The host calls whatever listener is attached. */
    method Dispatch(m: Incoming, throwing: map<nat, Value>)
      modifies this`pending, this`calls, this`delivered, this`errors
      ensures Contents() == Next(old(Contents()), Receive(m), onmessage == Bridge)
    {
      if onmessage == Bridge {
        HandleIncomingMessage(m, throwing);
      }
    }

    /** `postMessage` has returned, or thrown into the `catch` branch. */
    method EndSend(id: nat, thrown: Option<Value>)
      requires id >= 1 && id in sending
      modifies this`pending, this`sending, this`calls
      ensures Contents() == Next(old(Contents()), LastOf(id, thrown), onmessage == Bridge)
    {
      if thrown.Some? {
        FailSend(id, thrown.value);
      } else {
        sending := sending - {id};
      }
    }
  }

  lemma ReceivedSnoc(ms: seq<Incoming>, i: nat)
    requires i < |ms|
    ensures [Issue] + Received(ms[..i + 1]) == [Issue] + Received(ms[..i]) + [Receive(ms[i])]
  {
  }

  function Received(ms: seq<Incoming>): seq<Step> {
    seq(|ms|, i requires 0 <= i < |ms| => Receive(ms[i]))
  }

  function LastOf(id: int, thrown: Option<Value>): Step {
    match thrown case Some(e) => SendThrows(id, e) case None => SendReturns(id)
  }

  /** The steps one invocation goes through when nothing else happens. */
  function InvokeSteps(id: int, during: seq<Incoming>, thrown: Option<Value>): seq<Step> {
    [Issue] + Received(during) + [LastOf(id, thrown)]
  }

  // -------------------------------------------------------------------- runs

  /** Disabled steps leave the state as it is. */
  function AfterAll(s: State, steps: seq<Step>, listening: bool): State {
    if steps == [] then s
    else
      var t := AfterAll(s, steps[..|steps| - 1], listening);
      var step := steps[|steps| - 1];
      if Enabled(t, step) then Next(t, step, listening) else t
  }

  function Run(steps: seq<Step>, listening: bool): State { AfterAll(START, steps, listening) }

  lemma AfterAllAppend(s: State, steps: seq<Step>, step: Step, listening: bool)
    ensures
      var t := AfterAll(s, steps, listening);
      AfterAll(s, steps + [step], listening) == if Enabled(t, step) then Next(t, step, listening) else t
  {
    assert (steps + [step])[..|steps|] == steps;
  }

  lemma AfterAllOne(s: State, step: Step, listening: bool)
    requires Enabled(s, step)
    ensures AfterAll(s, [step], listening) == Next(s, step, listening)
    ensures [step] + Received([]) == [step]
  {
    assert [step][..0] == [];
  }

  /** The outcome of a promise is the first call of its functions. */
  function OutcomeOf(calls: seq<Call>, promise: nat): Option<Settlement> {
    if calls == [] then None
    else
      match OutcomeOf(calls[..|calls| - 1], promise)
      case Some(o) => Some(o)
      case None => if calls[|calls| - 1].promise == promise then Some(calls[|calls| - 1].settlement) else None
  }

  function CallCount(calls: seq<Call>, promise: nat): nat {
    if calls == [] then 0
    else CallCount(calls[..|calls| - 1], promise) + if calls[|calls| - 1].promise == promise then 1 else 0
  }

  /**
   * Ids are the numbers up to `nextId`; each is either pending, under its own
   * promise, or settled, never both; no promise is settled without an id.
   */
  ghost predicate Invariant(s: State) {
    && (forall id :: id in s.pending ==> 1 <= id <= s.nextId && s.pending[id] == id - 1)
    && (forall id :: id in s.sending ==> 1 <= id <= s.nextId)
    && (forall p: nat :: p < s.nextId ==> (p + 1 in s.pending <==> OutcomeOf(s.calls, p).None?))
    && (forall p: nat :: p >= s.nextId ==> CallCount(s.calls, p) == 0)
    && (forall p: nat :: CallCount(s.calls, p) <= if p + 1 in s.sending || p + 1 in s.pending then 1 else 2)
    && (forall p: nat :: p + 1 in s.pending ==> CallCount(s.calls, p) == 0)
  }

  lemma CallAppended(calls: seq<Call>, c: Call, p: nat)
    ensures OutcomeOf(calls + [c], p) ==
            if OutcomeOf(calls, p).Some? then OutcomeOf(calls, p)
            else if c.promise == p then Some(c.settlement) else None
    ensures CallCount(calls + [c], p) == CallCount(calls, p) + if c.promise == p then 1 else 0
  {
    assert (calls + [c])[..|calls|] == calls;
  }

  lemma {:induction false} NoCallNoOutcome(calls: seq<Call>, p: nat)
    ensures CallCount(calls, p) == 0 <==> OutcomeOf(calls, p).None?
  {
    if calls != [] {
      NoCallNoOutcome(calls[..|calls| - 1], p);
    }
  }

  /** A promise function is called: for a pending request, or by a throwing send. */
  lemma CallKeepsInvariant(s: State, t: State, c: Call)
    requires Invariant(s) && c.promise < s.nextId
    requires
      || (c.promise + 1 in s.pending && t.sending == s.sending)
      || (c.promise + 1 in s.sending && t.sending == s.sending - {c.promise + 1})
    requires t == s.(pending := s.pending - {c.promise + 1}, sending := t.sending, calls := s.calls + [c])
    ensures Invariant(t)
  {
    forall p: nat
      ensures CallCount(s.calls, p) == 0 <==> OutcomeOf(s.calls, p).None?
      ensures CallCount(t.calls, p) == CallCount(s.calls, p) + if c.promise == p then 1 else 0
      ensures OutcomeOf(t.calls, p).None? <==> OutcomeOf(s.calls, p).None? && c.promise != p
    {
      NoCallNoOutcome(s.calls, p);
      CallAppended(s.calls, c, p);
    }
  }

  lemma StepKeepsInvariant(s: State, step: Step, listening: bool)
    requires Invariant(s) && Enabled(s, step)
    ensures Invariant(Next(s, step, listening))
  {
    var t := Next(s, step, listening);
    if t.calls != s.calls {
      CallKeepsInvariant(s, t, t.calls[|t.calls| - 1]);
    } else if step.Issue? {
      NoCallNoOutcome(s.calls, s.nextId);
    }
  }

  lemma {:induction false} RunKeepsInvariant(steps: seq<Step>, listening: bool)
    ensures Invariant(Run(steps, listening))
  {
    if steps != [] {
      var n := |steps| - 1;
      RunKeepsInvariant(steps[..n], listening);
      if Enabled(Run(steps[..n], listening), steps[n]) {
        StepKeepsInvariant(Run(steps[..n], listening), steps[n], listening);
      }
    }
  }

  // ------------------------------------------------------------ the protocol

  /** Issued ids are 1 to `nextId`: the disjoint union of pending and settled ones. */
  lemma IssuedIsPendingOrSettled(steps: seq<Step>, listening: bool, id: int)
    ensures
      var s := Run(steps, listening);
      && (id in s.pending ==> 1 <= id <= s.nextId)
      && (1 <= id <= s.nextId ==> (id in s.pending <==> OutcomeOf(s.calls, id - 1).None?))
      && (id > s.nextId ==> OutcomeOf(s.calls, id - 1).None?)
  {
    RunKeepsInvariant(steps, listening);
    if id > Run(steps, listening).nextId {
      NoCallNoOutcome(Run(steps, listening).calls, id - 1);
    }
  }

  /** A new request gets an id never used before and leaves all others alone. */
  lemma IssuedIdIsFresh(steps: seq<Step>, listening: bool, earlier: nat)
    requires earlier <= |steps|
    ensures
      var s, before, t := Run(steps, listening), Run(steps[..earlier], listening), Run(steps + [Issue], listening);
      && t.nextId == s.nextId + 1 && t.nextId !in s.pending && t.nextId !in s.sending
      && before.nextId <= s.nextId
      && t.pending == s.pending[t.nextId := s.nextId] && t.calls == s.calls
  {
    RunKeepsInvariant(steps, listening);
    AfterAllAppend(START, steps, Issue, listening);
    NextIdGrows(steps, listening, earlier);
  }

  lemma {:induction false} NextIdGrows(steps: seq<Step>, listening: bool, earlier: nat)
    requires earlier <= |steps|
    ensures Run(steps[..earlier], listening).nextId <= Run(steps, listening).nextId
  {
    var n := |steps| - 1;
    if earlier <= n {
      NextIdGrows(steps[..n], listening, earlier);
      assert steps[..n][..earlier] == steps[..earlier];
    } else {
      assert steps[..earlier] == steps;
    }
  }

  /** A response to an id that is not pending (late, duplicate, unknown) changes nothing. */
  lemma StrayResponseIgnored(steps: seq<Step>, listening: bool, id: int, result: Value, error: Value)
    requires id !in Run(steps, listening).pending
    ensures Run(steps + [Receive(Response(id, result, error))], listening) == Run(steps, listening)
  {
    AfterAllAppend(START, steps, Receive(Response(id, result, error)), listening);
  }

  /**
   * The functions of a settled promise are called again only by its own
   * throwing `postMessage`, and hence at most once more.
   */
  lemma OnlyOwnThrowCallsAgain(steps: seq<Step>, step: Step, listening: bool, p: nat)
    requires Enabled(Run(steps, listening), step)
    requires OutcomeOf(Run(steps, listening).calls, p).Some?
    ensures CallCount(Run(steps + [step], listening).calls, p) <= 2
    ensures
      CallCount(Run(steps + [step], listening).calls, p) > CallCount(Run(steps, listening).calls, p)
      ==> step.SendThrows? && step.id == p + 1
    ensures OutcomeOf(Run(steps + [step], listening).calls, p) == OutcomeOf(Run(steps, listening).calls, p)
  {
    var s, t := Run(steps, listening), Run(steps + [step], listening);
    RunKeepsInvariant(steps, listening);
    RunKeepsInvariant(steps + [step], listening);
    AfterAllAppend(START, steps, step, listening);
    NoCallNoOutcome(s.calls, p);
    if t.calls != s.calls {
      CallAppended(s.calls, t.calls[|t.calls| - 1], p);
    }
  }

  // --------------------------------------- what a history says about a request

  /** Every step was possible when it was taken. */
  ghost predicate Legal(steps: seq<Step>, listening: bool) {
    forall k :: 0 <= k < |steps| ==> Enabled(Run(steps[..k], listening), steps[k])
  }

  function IssueCount(steps: seq<Step>): nat {
    if steps == [] then 0 else IssueCount(steps[..|steps| - 1]) + if steps[|steps| - 1].Issue? then 1 else 0
  }

  /** What this step means for an issued request `id`: a response with an error rejects it, any other resolves it. */
  function SettlementBy(step: Step, id: int, listening: bool): Option<Settlement> {
    match step
    case Receive(Response(i, result, error)) =>
      if !listening || i != id then None
      else Some(match error case Data(_) => Rejected(error) case _ => Resolved(result))
    case SendThrows(i, error) => if i == id then Some(Rejected(error)) else None
    case _ => None
  }

  /** Step `k` is the first one after the issue of `id` that settles it. */
  ghost predicate FirstSettler(steps: seq<Step>, id: int, listening: bool, k: nat) {
    && k < |steps| && IssueCount(steps[..k]) >= id && SettlementBy(steps[k], id, listening).Some?
    && forall j :: 0 <= j < k && IssueCount(steps[..j]) >= id ==> SettlementBy(steps[j], id, listening).None?
  }

  lemma {:induction false} NextIdCountsIssues(steps: seq<Step>, listening: bool)
    ensures Run(steps, listening).nextId == IssueCount(steps)
  {
    if steps != [] {
      NextIdCountsIssues(steps[..|steps| - 1], listening);
    }
  }

  lemma LegalPrefix(steps: seq<Step>, listening: bool)
    requires steps != [] && Legal(steps, listening)
    ensures Legal(steps[..|steps| - 1], listening)
    ensures Enabled(Run(steps[..|steps| - 1], listening), steps[|steps| - 1])
  {
    var init := steps[..|steps| - 1];
    forall k | 0 <= k < |init|
      ensures Enabled(Run(init[..k], listening), init[k])
    {
      assert init[..k] == steps[..k];
    }
  }

  /** The outcome of request `id` after one more step. */
  lemma StepOnOutcome(s: State, step: Step, listening: bool, id: nat)
    requires Invariant(s) && Enabled(s, step) && id >= 1
    ensures
      OutcomeOf(Next(s, step, listening).calls, id - 1) ==
      if OutcomeOf(s.calls, id - 1).Some? then OutcomeOf(s.calls, id - 1)
      else if id <= s.nextId then SettlementBy(step, id, listening)
      else None
  {
    var t := Next(s, step, listening);
    if t.calls != s.calls {
      CallAppended(s.calls, t.calls[|t.calls| - 1], id - 1);
    }
    NoCallNoOutcome(s.calls, id - 1);
  }

  lemma FirstSettlerPrefix(steps: seq<Step>, id: int, listening: bool, k: nat)
    requires steps != []
    ensures
      var n := |steps| - 1;
      FirstSettler(steps, id, listening, k) <==>
      if k < n then FirstSettler(steps[..n], id, listening, k)
      else
        && k == n && IssueCount(steps[..n]) >= id && SettlementBy(steps[n], id, listening).Some?
        && forall j: nat :: !FirstSettler(steps[..n], id, listening, j)
  {
    var n := |steps| - 1;
    forall j | 0 <= j <= n
      ensures steps[..n][..j] == steps[..j]
    {
    }
    if k == n && !(forall j :: 0 <= j < n && IssueCount(steps[..j]) >= id ==> SettlementBy(steps[j], id, listening).None?) {
      var j: nat :| j < n && IssueCount(steps[..j]) >= id && SettlementBy(steps[j], id, listening).Some?;
      var first := Earliest(steps[..n], id, listening, j);
    }
  }

  /** Among settling steps there is a first one. */
  lemma {:induction false} Earliest(steps: seq<Step>, id: int, listening: bool, j: nat) returns (k: nat)
    requires j < |steps| && IssueCount(steps[..j]) >= id && SettlementBy(steps[j], id, listening).Some?
    ensures FirstSettler(steps, id, listening, k)
    decreases j
  {
    if i: nat :| i < j && IssueCount(steps[..i]) >= id && SettlementBy(steps[i], id, listening).Some? {
      k := Earliest(steps, id, listening, i);
    } else {
      k := j;
    }
  }

  /**
   * The protocol theorem: in every run, a request is settled exactly when a
   * step after its issue settles it, and then the first such step, with its
   * own result or error, decides. Nothing else ever does.
   */
  lemma {:induction false} FirstSettlerDecides(steps: seq<Step>, listening: bool, id: nat)
    requires Legal(steps, listening) && id >= 1
    ensures forall k: nat :: FirstSettler(steps, id, listening, k) ==>
      OutcomeOf(Run(steps, listening).calls, id - 1) == SettlementBy(steps[k], id, listening)
    ensures OutcomeOf(Run(steps, listening).calls, id - 1).Some? ==> exists k: nat :: FirstSettler(steps, id, listening, k)
  {
    if steps != [] {
      var n := |steps| - 1;
      LegalPrefix(steps, listening);
      FirstSettlerDecides(steps[..n], listening, id);
      RunKeepsInvariant(steps[..n], listening);
      NextIdCountsIssues(steps[..n], listening);
      StepOnOutcome(Run(steps[..n], listening), steps[n], listening, id);
      forall k: nat
        ensures FirstSettler(steps, id, listening, k) <==>
                if k < n then FirstSettler(steps[..n], id, listening, k)
                else
                  && k == n && IssueCount(steps[..n]) >= id && SettlementBy(steps[n], id, listening).Some?
                  && forall j: nat :: !FirstSettler(steps[..n], id, listening, j)
      {
        FirstSettlerPrefix(steps, id, listening, k);
      }
      if OutcomeOf(Run(steps[..n], listening).calls, id - 1).Some? {
        var k: nat :| FirstSettler(steps[..n], id, listening, k);
        assert FirstSettler(steps, id, listening, k);
      } else if OutcomeOf(Run(steps, listening).calls, id - 1).Some? {
        assert FirstSettler(steps, id, listening, n);
      }
    }
  }

  /** What the first of these messages that answers request `id` says. */
  function FirstAnswer(ms: seq<Incoming>, id: int, listening: bool): Option<Settlement> {
    if ms == [] then None
    else
      match FirstAnswer(ms[..|ms| - 1], id, listening)
      case Some(o) => Some(o)
      case None => SettlementBy(Receive(ms[|ms| - 1]), id, listening)
  }

  /** Request `id` is the last one issued and still being sent; its outcome so far is `answer`. */
  ghost predicate BeingSent(s: State, id: nat, answer: Option<Settlement>) {
    Invariant(s) && id >= 1 && s.nextId == id && id in s.sending && OutcomeOf(s.calls, id - 1) == answer
  }

  lemma NothingAnsweredYet(steps: seq<Step>, listening: bool)
    ensures BeingSent(Run(steps + [Issue], listening), Run(steps, listening).nextId + 1, None)
  {
    var s := Run(steps, listening);
    RunKeepsInvariant(steps, listening);
    AfterAllAppend(START, steps, Issue, listening);
    StepKeepsInvariant(s, Issue, listening);
    NoCallNoOutcome(s.calls, s.nextId);
  }

  lemma AnswerArrives(s: State, m: Incoming, listening: bool, id: nat, answer: Option<Settlement>)
    requires BeingSent(s, id, answer)
    ensures BeingSent(Next(s, Receive(m), listening), id, if answer.Some? then answer else SettlementBy(Receive(m), id, listening))
  {
    StepKeepsInvariant(s, Receive(m), listening);
    StepOnOutcome(s, Receive(m), listening, id);
  }

  lemma {:induction false} AnswersWhileSending(steps: seq<Step>, during: seq<Incoming>, listening: bool)
    ensures
      var id := Run(steps, listening).nextId + 1;
      BeingSent(Run(steps + ([Issue] + Received(during)), listening), id, FirstAnswer(during, id, listening))
  {
    if during == [] {
      assert [Issue] + Received(during) == [Issue];
      NothingAnsweredYet(steps, listening);
    } else {
      var n, id := |during| - 1, Run(steps, listening).nextId + 1;
      var before, last := steps + ([Issue] + Received(during[..n])), Receive(during[n]);
      AnswersWhileSending(steps, during[..n], listening);
      AnswerArrives(Run(before, listening), during[n], listening, id, FirstAnswer(during[..n], id, listening));
      OneMoreReceived(steps, during, n);
      AfterAllAppend(START, before, last, listening);
    }
  }

  lemma OneMoreReceived(steps: seq<Step>, during: seq<Incoming>, n: nat)
    requires n + 1 == |during|
    ensures steps + ([Issue] + Received(during)) == steps + ([Issue] + Received(during[..n])) + [Receive(during[n])]
  {
  }

  /**
   * One invocation after any run: its promise gets what the first answer says
   * that arrives while the request is being sent, even if the sending then
   * fails; else a failed sending rejects it; else it stays pending.
   */
  lemma InvokeOutcome(steps: seq<Step>, during: seq<Incoming>, thrown: Option<Value>, listening: bool)
    ensures
      var id := Run(steps, listening).nextId + 1;
      OutcomeOf(Run(steps + InvokeSteps(id, during, thrown), listening).calls, id - 1) ==
      match FirstAnswer(during, id, listening)
      case Some(o) => Some(o)
      case None => if thrown.Some? then Some(Rejected(thrown.value)) else None
  {
    var id := Run(steps, listening).nextId + 1;
    var before, last := steps + ([Issue] + Received(during)), LastOf(id, thrown);
    AnswersWhileSending(steps, during, listening);
    assert steps + InvokeSteps(id, during, thrown) == before + [last];
    AfterAllAppend(START, before, last, listening);
    StepOnOutcome(Run(before, listening), last, listening, id);
  }

  /** If another listener was there first, no response ever settles a request. */
  lemma WithoutListenerNothingArrives(steps: seq<Step>, id: nat)
    requires Legal(steps, false) && id >= 1
    requires forall k :: 0 <= k < |steps| && steps[k].SendThrows? ==> steps[k].id != id
    ensures OutcomeOf(Run(steps, false).calls, id - 1).None?
  {
    FirstSettlerDecides(steps, false, id);
  }

  // -------------------------------------------------------------- subscribers

  /** The last word on handler `h` was a subscription. */
  function Subscribed(steps: seq<Step>, h: nat): bool {
    if steps == [] then false
    else if steps[|steps| - 1] == Subscribe(h) then true
    else if steps[|steps| - 1] == Unsubscribe(h) then false
    else Subscribed(steps[..|steps| - 1], h)
  }

  ghost predicate NoDuplicates(hs: seq<nat>) {
    forall i, j :: 0 <= i < j < |hs| ==> hs[i] != hs[j]
  }

  lemma {:induction false} WithoutRemoves(hs: seq<nat>, h: nat, g: nat)
    ensures g in Without(hs, h) <==> g in hs && g != h
    ensures NoDuplicates(hs) ==> NoDuplicates(Without(hs, h))
  {
    if hs != [] {
      WithoutRemoves(hs[1..], h, g);
      assert hs == [hs[0]] + hs[1..];
      assert NoDuplicates(hs) ==> NoDuplicates(hs[1..]);
      if NoDuplicates(hs) && hs[0] != h {
        WithoutRemoves(hs[1..], h, hs[0]);
      }
    }
  }

  /** Current handlers are those subscribed and not unsubscribed since, once each. */
  lemma {:induction false} HandlersAreSubscribed(steps: seq<Step>, listening: bool, h: nat)
    ensures h in Run(steps, listening).handlers <==> Subscribed(steps, h)
    ensures NoDuplicates(Run(steps, listening).handlers)
  {
    if steps != [] {
      var n := |steps| - 1;
      HandlersAreSubscribed(steps[..n], listening, h);
      if steps[n].Unsubscribe? {
        WithoutRemoves(Run(steps[..n], listening).handlers, steps[n].handler, h);
      }
    }
  }

  /** The current membership of `h` began with step `k`: it was not a member before, and has not left since. */
  ghost predicate JoinedAt(steps: seq<Step>, h: nat, k: nat) {
    && k < |steps| && steps[k] == Subscribe(h) && !Subscribed(steps[..k], h)
    && forall j :: k < j < |steps| ==> steps[j] != Unsubscribe(h)
  }

  /** That step, or -1 for a handler that is no member. */
  function JoinOf(steps: seq<Step>, h: nat): int {
    if steps == [] then -1
    else
      var n := |steps| - 1;
      if steps[n] == Unsubscribe(h) then -1
      else if steps[n] == Subscribe(h) && !Subscribed(steps[..n], h) then n
      else JoinOf(steps[..n], h)
  }

  lemma {:induction false} JoinOfIsJoin(steps: seq<Step>, h: nat)
    ensures Subscribed(steps, h) <==> JoinOf(steps, h) >= 0
    ensures -1 <= JoinOf(steps, h) < |steps|
    ensures Subscribed(steps, h) ==> JoinedAt(steps, h, JoinOf(steps, h))
  {
    if steps != [] {
      var n := |steps| - 1;
      JoinOfIsJoin(steps[..n], h);
      var k := JoinOf(steps, h);
      if 0 <= k < n {
        assert steps[..n][..k] == steps[..k];
      }
    }
  }

  lemma {:induction false} JoinIsUnique(steps: seq<Step>, h: nat, k: nat)
    requires JoinedAt(steps, h, k)
    ensures JoinOf(steps, h) == k
  {
    var n := |steps| - 1;
    JoinedMeansMember(steps, h, k, n);
    if k < n {
      assert steps[..n][..k] == steps[..k];
      JoinIsUnique(steps[..n], h, k);
    }
  }

  lemma {:induction false} JoinedMeansMember(steps: seq<Step>, h: nat, k: nat, n: nat)
    requires JoinedAt(steps, h, k) && k <= n <= |steps|
    ensures k < n ==> Subscribed(steps[..n], h)
  {
    if k < n {
      assert steps[..n][..n - 1] == steps[..n - 1];
      if k < n - 1 {
        JoinedMeansMember(steps, h, k, n - 1);
      }
    }
  }

  /** In the order of joining. */
  ghost predicate InOrder(steps: seq<Step>, hs: seq<nat>) {
    forall i, j :: 0 <= i < j < |hs| ==> JoinOf(steps, hs[i]) < JoinOf(steps, hs[j])
  }

  lemma {:induction false} WithoutKeepsOrder(steps: seq<Step>, hs: seq<nat>, h: nat)
    requires InOrder(steps, hs)
    ensures InOrder(steps, Without(hs, h))
  {
    if hs != [] {
      assert InOrder(steps, hs[1..]);
      WithoutKeepsOrder(steps, hs[1..], h);
      var rest := Without(hs[1..], h);
      forall j | 0 <= j < |rest|
        ensures JoinOf(steps, hs[0]) < JoinOf(steps, rest[j])
      {
        WithoutRemoves(hs[1..], h, rest[j]);
        var k :| 0 <= k < |hs[1..]| && hs[1..][k] == rest[j];
        assert hs[k + 1] == rest[j];
      }
    }
  }

  /** Joining puts a handler behind those that have joined before. */
  lemma OrderAfterSubscribe(steps: seq<Step>, hs: seq<nat>, h: nat)
    requires InOrder(steps, hs) && forall g :: g in hs <==> Subscribed(steps, g)
    ensures InOrder(steps + [Subscribe(h)], if h in hs then hs else hs + [h])
  {
    var longer := steps + [Subscribe(h)];
    assert longer[..|steps|] == steps;
    forall g | g in hs
      ensures JoinOf(longer, g) == JoinOf(steps, g) < |steps|
    {
      JoinOfIsJoin(steps, g);
    }
    assert h !in hs ==> JoinOf(longer, h) == |steps|;
  }

  /** Leaving keeps the order of those who stay; no other step touches it. */
  lemma OrderAfterOther(steps: seq<Step>, hs: seq<nat>, step: Step)
    requires InOrder(steps, hs) && !step.Subscribe?
    requires step.Unsubscribe? ==> step.handler !in hs
    ensures InOrder(steps + [step], hs)
  {
    var longer := steps + [step];
    assert longer[..|steps|] == steps;
    forall g | g in hs
      ensures JoinOf(longer, g) == JoinOf(steps, g)
    {
    }
  }

  lemma {:induction false} RunKeepsOrder(steps: seq<Step>, listening: bool)
    ensures InOrder(steps, Run(steps, listening).handlers)
  {
    if steps != [] {
      var n := |steps| - 1;
      var before := Run(steps[..n], listening).handlers;
      RunKeepsOrder(steps[..n], listening);
      assert steps == steps[..n] + [steps[n]];
      if steps[n].Subscribe? {
        forall g
          ensures g in before <==> Subscribed(steps[..n], g)
        {
          HandlersAreSubscribed(steps[..n], listening, g);
        }
        OrderAfterSubscribe(steps[..n], before, steps[n].handler);
      } else if steps[n].Unsubscribe? {
        WithoutKeepsOrder(steps[..n], before, steps[n].handler);
        WithoutRemoves(before, steps[n].handler, steps[n].handler);
        OrderAfterOther(steps[..n], Without(before, steps[n].handler), steps[n]);
      } else {
        OrderAfterOther(steps[..n], before, steps[n]);
      }
    }
  }

  /** Of two current handlers the one whose membership began earlier comes first. */
  lemma HandlersInOrderOfJoining(steps: seq<Step>, listening: bool, i: nat, j: nat, k: nat, l: nat)
    requires i < |Run(steps, listening).handlers| && j < |Run(steps, listening).handlers|
    requires JoinedAt(steps, Run(steps, listening).handlers[i], k)
    requires JoinedAt(steps, Run(steps, listening).handlers[j], l)
    ensures i < j <==> k < l
  {
    var hs := Run(steps, listening).handlers;
    RunKeepsOrder(steps, listening);
    JoinIsUnique(steps, hs[i], k);
    JoinIsUnique(steps, hs[j], l);
    assert i < j ==> JoinOf(steps, hs[i]) < JoinOf(steps, hs[j]);
    assert j < i ==> JoinOf(steps, hs[j]) < JoinOf(steps, hs[i]);
  }

  /** Every current handler has such a beginning. */
  lemma HandlerHasJoined(steps: seq<Step>, listening: bool, h: nat)
    requires h in Run(steps, listening).handlers
    ensures exists k :: JoinedAt(steps, h, k)
  {
    HandlersAreSubscribed(steps, listening, h);
    JoinOfIsJoin(steps, h);
  }

  /** The calls for an event are made in the order in which the handlers have joined. */
  lemma EventInOrderOfJoining(steps: seq<Step>, payload: Value, i: nat, j: nat, k: nat, l: nat)
    requires
      var s, t := Run(steps, true), Run(steps + [Receive(Push(payload))], true);
      && |s.delivered| <= i < |t.delivered| && |s.delivered| <= j < |t.delivered|
      && JoinedAt(steps, t.delivered[i].handler, k) && JoinedAt(steps, t.delivered[j].handler, l)
    ensures i < j <==> k < l
  {
    var s := Run(steps, true);
    AfterAllAppend(START, steps, Receive(Push(payload)), true);
    HandlersInOrderOfJoining(steps, true, i - |s.delivered|, j - |s.delivered|, k, l);
  }

  /** Nothing but an event that arrives calls handlers, and no other step than these two changes who is subscribed. */
  lemma OnlyEventsDeliver(steps: seq<Step>, step: Step, listening: bool)
    ensures
      var s, t := Run(steps, listening), Run(steps + [step], listening);
      && (t.delivered != s.delivered ==> listening && step.Receive? && step.message.Push?)
      && (t.handlers != s.handlers ==> step.Subscribe? || step.Unsubscribe?)
      && (t.nextId != s.nextId ==> step.Issue?)
      && (t.pending != s.pending ==>
          step.Issue? || step.SendThrows? || (listening && step.Receive? && step.message.Response?))
  {
    AfterAllAppend(START, steps, step, listening);
  }

  /** Messages that are not JSON, or of no known kind, change nothing. */
  lemma OtherMessagesIgnored(steps: seq<Step>, m: Incoming, listening: bool)
    requires m.NotJson? || m.OtherMessage?
    ensures Run(steps + [Receive(m)], listening) == Run(steps, listening)
  {
    AfterAllAppend(START, steps, Receive(m), listening);
  }

  /** An event reaches every current subscriber exactly once and nobody else. */
  lemma EventReachesSubscribers(steps: seq<Step>, h: nat, payload: Value)
    ensures
      var s, t := Run(steps, true), Run(steps + [Receive(Push(payload))], true);
      && |t.delivered| == |s.delivered| + |s.handlers| && s.delivered <= t.delivered
      && (Subscribed(steps, h) <==> exists k :: |s.delivered| <= k < |t.delivered| && t.delivered[k] == Delivery(h, payload))
      && forall k, l :: |s.delivered| <= k < l < |t.delivered| ==> t.delivered[k] != t.delivered[l]
  {
    var s, t := Run(steps, true), Run(steps + [Receive(Push(payload))], true);
    AfterAllAppend(START, steps, Receive(Push(payload)), true);
    HandlersAreSubscribed(steps, true, h);
    var n := |s.delivered|;
    assert forall i :: 0 <= i < |s.handlers| ==> t.delivered[n + i] == Delivery(s.handlers[i], payload);
    if Subscribed(steps, h) {
      var i :| 0 <= i < |s.handlers| && s.handlers[i] == h;
      assert t.delivered[n + i] == Delivery(h, payload);
    }
    forall k | n <= k < |t.delivered|
      ensures t.delivered[k] == Delivery(s.handlers[k - n], payload)
    {
      assert t.delivered[n + (k - n)] == Delivery(s.handlers[k - n], payload);
    }
  }
}
