/** The guarded runtime of cells: budgets, deduplication and the three activation modes. */
module CellRuntimes {
  import opened Text
  import opened Kernel
  import opened Selection

  datatype CellReply = Effects(effects: seq<Effect>) | TimedOut

  datatype RuntimeOutcome = RuntimeOutcome(
    mode: ActivationMode,
    effects: seq<Effect>,
    executed: bool,
    quarantined: bool,
    diagnostics: seq<string>)

  datatype Handled =
    | Ok(outcome: RuntimeOutcome)
    | OverBudget
    | CellTimeout
    | InterpreterFailed

  type Cell = (ActivationMode, EventEnvelope) -> CellReply

  /** The answer of the outside world to the n-th effect it is asked to interpret. */
  type Verdict = (nat, Effect) -> bool

  function Correlation(event: EventEnvelope): string {
    match event.correlationId
    case Some(c) => c
    case None => event.id
  }

  // ---------- The guard ----------

  /** What the guard has seen: counted events per correlation, and every accepted key. */
  datatype GuardState = GuardState(counts: map<string, nat>, accepted: seq<string>)

  const FRESH_GUARD := GuardState(map[], [])

  predicate TooDeep(b: RuntimeBudgets, event: EventEnvelope) {
    event.causationDepth > b.maxCausationDepth
  }

  function CountOf(counts: map<string, nat>, c: string): nat {
    if c in counts then counts[c] else 0
  }

  /** The per-correlation counter is an unsigned 32-bit integer. */
  function Bumped(counts: map<string, nat>, c: string): map<string, nat> {
    counts[c := (CountOf(counts, c) + 1) % U32_RANGE]
  }

  function CountsAfter(b: RuntimeBudgets, counts: map<string, nat>, event: EventEnvelope): map<string, nat> {
    if TooDeep(b, event) then counts else Bumped(counts, Correlation(event))
  }

  predicate Admits(b: RuntimeBudgets, counts: map<string, nat>, event: EventEnvelope) {
    !TooDeep(b, event) && CountOf(CountsAfter(b, counts, event), Correlation(event)) <= b.maxEventsPerCorrelation
  }

  /** The accepted keys after a list of effects has been offered. */
  function AcceptedAfter(capacity: nat, accepted: seq<string>, effects: seq<Effect>): seq<string> {
    if effects == [] then accepted
    else
      var before := AcceptedAfter(capacity, accepted, effects[..|effects| - 1]);
      match effects[|effects| - 1].IdempotencyKey()
      case None => before
      case Some(key) => Offer(capacity, before, key)
  }

  /** The effects that survive deduplication. */
  function Retained(capacity: nat, accepted: seq<string>, effects: seq<Effect>): seq<Effect> {
    if effects == [] then []
    else
      var front, last := effects[..|effects| - 1], effects[|effects| - 1];
      var before := AcceptedAfter(capacity, accepted, front);
      if last.IdempotencyKey().Some? && Offer(capacity, before, last.IdempotencyKey().value) == before
      then Retained(capacity, accepted, front)
      else Retained(capacity, accepted, front) + [last]
  }

  /** The effect at `i` passes deduplication: it is no keyed command, or its key is not among the
      last `capacity` keys accepted before it. */
  predicate IsNew(capacity: nat, accepted: seq<string>, effects: seq<Effect>, i: nat)
    requires i < |effects|
  {
    effects[i].Command? && effects[i].key.Some? ==>
      effects[i].key.value !in LastN(AcceptedAfter(capacity, accepted, effects[..i]), capacity)
  }

  /** `kept` are the effects that pass, at the increasing positions `pos`, and no others. */
  ghost predicate PassesAt(capacity: nat, accepted: seq<string>, effects: seq<Effect>,
                           kept: seq<Effect>, pos: seq<nat>)
  {
    Selects(effects, kept, pos) && AreTheNew(capacity, accepted, effects, pos)
  }

  ghost predicate AreTheNew(capacity: nat, accepted: seq<string>, effects: seq<Effect>, pos: seq<nat>) {
    forall i :: 0 <= i < |effects| ==> (i in pos <==> IsNew(capacity, accepted, effects, i))
  }

  ghost predicate PassesDedup(capacity: nat, accepted: seq<string>, effects: seq<Effect>, kept: seq<Effect>) {
    exists pos: seq<nat> :: PassesAt(capacity, accepted, effects, kept, pos)
  }

  /** Deduplication keeps every effect that carries no key, in particular everything that is no
      command, and of the keyed commands exactly those whose key is new. */
  lemma {:induction false} RetainedPasses(capacity: nat, accepted: seq<string>, effects: seq<Effect>)
    ensures PassesDedup(capacity, accepted, effects, Retained(capacity, accepted, effects))
  {
    hide *;
    if effects == [] {
      NothingPasses(capacity, accepted);
    } else {
      var front, last := effects[..|effects| - 1], effects[|effects| - 1];
      RetainedPasses(capacity, accepted, front);
      assert effects == front + [last];
      RetainedPushed(capacity, accepted, front, last);
      PassesPushed(capacity, accepted, front, Retained(capacity, accepted, front), last);
    }
  }

  lemma RetainedPushed(capacity: nat, accepted: seq<string>, front: seq<Effect>, last: Effect)
    ensures Retained(capacity, accepted, front + [last])
         == Retained(capacity, accepted, front)
            + (if IsNew(capacity, accepted, front + [last], |front|) then [last] else [])
  {
    assert (front + [last])[..|front|] == front;
    var kept := Retained(capacity, accepted, front);
    assert kept + [] == kept;
    hide AcceptedAfter, LastN;
  }

  lemma NothingPasses(capacity: nat, accepted: seq<string>)
    ensures PassesDedup(capacity, accepted, [], Retained(capacity, accepted, []))
  {
    assert PassesAt(capacity, accepted, [], [], []);
  }

  lemma PassesPushed(capacity: nat, accepted: seq<string>, front: seq<Effect>, kept: seq<Effect>, last: Effect)
    requires PassesDedup(capacity, accepted, front, kept)
    ensures var taken := IsNew(capacity, accepted, front + [last], |front|);
            PassesDedup(capacity, accepted, front + [last], kept + if taken then [last] else [])
  {
    hide Selects, AreTheNew, IsNew;
    var pos: seq<nat> :| PassesAt(capacity, accepted, front, kept, pos);
    var taken := IsNew(capacity, accepted, front + [last], |front|);
    var more := SelectsPushed(front, kept, pos, last, taken);
    NewPushed(capacity, accepted, front, pos, last, more);
    assert kept + [] == kept;
    assert PassesAt(capacity, accepted, front + [last], if taken then kept + [last] else kept, more);
  }

  lemma NewPushed(capacity: nat, accepted: seq<string>, front: seq<Effect>, pos: seq<nat>, last: Effect, more: seq<nat>)
    requires AreTheNew(capacity, accepted, front, pos) && forall i: nat :: i in pos ==> i < |front|
    requires var taken := IsNew(capacity, accepted, front + [last], |front|);
             forall i: nat :: i in more <==> i in pos || (taken && i == |front|)
    ensures AreTheNew(capacity, accepted, front + [last], more)
  {
    hide AcceptedAfter, LastN;
    var all := front + [last];
    forall i | 0 <= i < |front|
      ensures IsNew(capacity, accepted, all, i) == IsNew(capacity, accepted, front, i)
    {
      assert all[..i] == front[..i];
    }
    hide IsNew;
  }

  class RuntimeGuard {
    const budgets: RuntimeBudgets
    var eventCounts: map<string, nat>
    const idempotency: IdempotencyWindow

    ghost predicate Valid()
      reads this, idempotency
    {
      idempotency.Valid() && idempotency.capacity == budgets.idempotencyCacheSize
    }

    ghost function State(): GuardState
      reads this, idempotency
    {
      GuardState(eventCounts, idempotency.accepted)
    }

    constructor (budgets: RuntimeBudgets)
      ensures Valid() && fresh(idempotency) && this.budgets == budgets && State() == FRESH_GUARD
    {
      this.budgets := budgets;
      eventCounts := map[];
      idempotency := new IdempotencyWindow(budgets.idempotencyCacheSize);
    }

    method CheckEvent(event: EventEnvelope) returns (ok: bool)
      requires Valid()
      modifies this
      ensures Valid() && State() == GuardState(CountsAfter(budgets, old(eventCounts), event), old(idempotency.accepted))
      ensures ok == Admits(budgets, old(eventCounts), event)
      ensures event.causationDepth > budgets.maxCausationDepth ==> !ok && eventCounts == old(eventCounts)
      ensures event.causationDepth <= budgets.maxCausationDepth ==>
                var c := if event.correlationId.Some? then event.correlationId.value else event.id;
                && c in eventCounts
                && eventCounts[c] == (CountOf(old(eventCounts), c) + 1) % U32_RANGE
                && (forall d :: d != c ==> CountOf(eventCounts, d) == CountOf(old(eventCounts), d))
                && ok == (eventCounts[c] <= budgets.maxEventsPerCorrelation)
    {
      if event.causationDepth > budgets.maxCausationDepth {
        return false;
      }
      var correlation := match event.correlationId case Some(c) => c case None => event.id;
      if correlation !in eventCounts {
        eventCounts := eventCounts[correlation := 0];
      }
      eventCounts := eventCounts[correlation := (eventCounts[correlation] + 1) % U32_RANGE];
      if eventCounts[correlation] > budgets.maxEventsPerCorrelation {
        return false;
      }
      return true;
    }

    method RetainNewEffects(effects: seq<Effect>) returns (retained: seq<Effect>)
      requires Valid()
      modifies idempotency
      ensures Valid()
      ensures idempotency.accepted == AcceptedAfter(idempotency.capacity, old(idempotency.accepted), effects)
      ensures retained == Retained(idempotency.capacity, old(idempotency.accepted), effects)
      ensures PassesDedup(idempotency.capacity, old(idempotency.accepted), effects, retained)
    {
      RetainedPasses(idempotency.capacity, idempotency.accepted, effects);
      hide PassesDedup;
      retained := [];
      for i := 0 to |effects|
        invariant Valid()
        invariant idempotency.accepted == AcceptedAfter(idempotency.capacity, old(idempotency.accepted), effects[..i])
        invariant retained == Retained(idempotency.capacity, old(idempotency.accepted), effects[..i])
      {
        assert effects[..i + 1][..i] == effects[..i];
        var keep := true;
        match effects[i].IdempotencyKey() {
          case Some(key) => keep := idempotency.InsertNew(key);
          case None =>
        }
        if keep {
          retained := retained + [effects[i]];
        }
      }
      assert effects[..|effects|] == effects;
    }
  }

  // ---------- Interpreting ----------

  /** The effects the interpreter is given, in order: no-ops are skipped, and the first
      failure ends the list. `n` effects were interpreted before. */
  function Interpreted(verdict: Verdict, n: nat, effects: seq<Effect>): seq<Effect>
    decreases |effects|
  {
    if effects == [] then []
    else if effects[0].Noop? then Interpreted(verdict, n, effects[1..])
    else if verdict(n, effects[0]) then [effects[0]] + Interpreted(verdict, n + 1, effects[1..])
    else [effects[0]]
  }

  predicate AllSucceed(verdict: Verdict, n: nat, effects: seq<Effect>)
    decreases |effects|
  {
    effects == []
    || (if effects[0].Noop? then AllSucceed(verdict, n, effects[1..])
        else verdict(n, effects[0]) && AllSucceed(verdict, n + 1, effects[1..]))
  }

  class EffectInterpreter {
    const verdict: Verdict
    var calls: seq<Effect>

    constructor (verdict: Verdict)
      ensures calls == [] && this.verdict == verdict
    {
      this.verdict := verdict;
      calls := [];
    }

    method Interpret(effect: Effect) returns (ok: bool)
      modifies this
      ensures calls == old(calls) + [effect] && ok == verdict(|old(calls)|, effect)
    {
      ok := verdict(|calls|, effect);
      calls := calls + [effect];
    }
  }

  // ---------- One event ----------

  datatype RuntimeState = RuntimeState(guard: GuardState, calls: seq<Effect>)

  function Diagnostics(mode: ActivationMode): seq<string> {
    match mode
    case Shadow => ["shadow mode recorded expected effects"]
    case Rollback => ["rollback mode delegated to legacy path"]
    case Active => []
  }

  /** The guard after an event. A timed-out cell leaves the keys alone; keys are recorded
      before anything is interpreted. */
  function GuardAfter(b: RuntimeBudgets, g: GuardState, event: EventEnvelope, reply: CellReply): GuardState {
    var counts := CountsAfter(b, g.counts, event);
    if Admits(b, g.counts, event) && reply.Effects?
    then GuardState(counts, AcceptedAfter(b.idempotencyCacheSize, g.accepted, reply.effects))
    else GuardState(counts, g.accepted)
  }

  /** The effects an event contributes after admission and deduplication. */
  function Reported(b: RuntimeBudgets, g: GuardState, event: EventEnvelope, reply: CellReply): seq<Effect> {
    if Admits(b, g.counts, event) && reply.Effects?
    then Retained(b.idempotencyCacheSize, g.accepted, reply.effects) else []
  }

  function StateAfter(mode: ActivationMode, b: RuntimeBudgets, verdict: Verdict, s: RuntimeState,
                      event: EventEnvelope, reply: CellReply): RuntimeState
  {
    RuntimeState(
      GuardAfter(b, s.guard, event, reply),
      if mode.Active? then s.calls + Interpreted(verdict, |s.calls|, Reported(b, s.guard, event, reply)) else s.calls)
  }

  function Answer(mode: ActivationMode, b: RuntimeBudgets, verdict: Verdict, s: RuntimeState,
                  event: EventEnvelope, reply: CellReply): Handled
  {
    var reported := Reported(b, s.guard, event, reply);
    if !Admits(b, s.guard.counts, event) then OverBudget
    else if reply.TimedOut? then CellTimeout
    else if mode.Active? && !AllSucceed(verdict, |s.calls|, reported) then InterpreterFailed
    else Ok(RuntimeOutcome(mode, reported, mode.Active?, false, Diagnostics(mode)))
  }

  class CellRuntime {
    const mode: ActivationMode
    const guard: RuntimeGuard
    const interpreter: EffectInterpreter

    ghost predicate Valid()
      reads guard, guard.idempotency
    {
      guard.Valid()
    }

    ghost function State(): RuntimeState
      reads guard, guard.idempotency, interpreter
    {
      RuntimeState(guard.State(), interpreter.calls)
    }

    constructor (mode: ActivationMode, budgets: RuntimeBudgets, interpreter: EffectInterpreter)
      ensures Valid() && State() == RuntimeState(FRESH_GUARD, interpreter.calls)
      ensures this.mode == mode && guard.budgets == budgets && this.interpreter == interpreter
      ensures fresh(guard) && fresh(guard.idempotency)
    {
      this.mode := mode;
      this.interpreter := interpreter;
      guard := new RuntimeGuard(budgets);
    }

    method HandleEvent(cell: Cell, event: EventEnvelope) returns (handled: Handled)
      requires Valid()
      modifies guard, guard.idempotency, interpreter
      ensures Valid()
      ensures State() == StateAfter(mode, guard.budgets, interpreter.verdict, old(State()), event, cell(mode, event))
      ensures handled == Answer(mode, guard.budgets, interpreter.verdict, old(State()), event, cell(mode, event))
      ensures handled.Ok? ==>
                && handled.outcome.mode == mode && handled.outcome.executed == mode.Active?
                && cell(mode, event).Effects?
                && PassesDedup(guard.budgets.idempotencyCacheSize, old(guard.idempotency.accepted),
                               cell(mode, event).effects, handled.outcome.effects)
      ensures handled.OverBudget? || handled.CellTimeout? ==>
                && interpreter.calls == old(interpreter.calls)
                && guard.idempotency.accepted == old(guard.idempotency.accepted)
      ensures handled.CellTimeout? ==> cell(mode, event).TimedOut?
      ensures handled.InterpreterFailed? || interpreter.calls != old(interpreter.calls) ==> mode.Active?
    {
      var admitted := guard.CheckEvent(event);
      if !admitted {
        return OverBudget;
      }
      var reply := cell(mode, event);
      if reply.TimedOut? {
        return CellTimeout;
      }
      var effects := guard.RetainNewEffects(reply.effects);
      match mode {
        case Shadow =>
          return Ok(RuntimeOutcome(mode, effects, false, false, ["shadow mode recorded expected effects"]));
        case Rollback =>
          return Ok(RuntimeOutcome(mode, effects, false, false, ["rollback mode delegated to legacy path"]));
        case Active =>
          var ok := InterpretAll(effects);
          if !ok {
            return InterpreterFailed;
          }
          return Ok(RuntimeOutcome(mode, effects, true, false, []));
      }
    }

    method InterpretAll(effects: seq<Effect>) returns (ok: bool)
      modifies interpreter
      ensures interpreter.calls
           == old(interpreter.calls) + Interpreted(interpreter.verdict, |old(interpreter.calls)|, effects)
      ensures ok == AllSucceed(interpreter.verdict, |old(interpreter.calls)|, effects)
    {
      for i := 0 to |effects|
        invariant old(interpreter.calls) + Interpreted(interpreter.verdict, |old(interpreter.calls)|, effects)
               == interpreter.calls + Interpreted(interpreter.verdict, |interpreter.calls|, effects[i..])
        invariant AllSucceed(interpreter.verdict, |old(interpreter.calls)|, effects)
               == AllSucceed(interpreter.verdict, |interpreter.calls|, effects[i..])
      {
        assert effects[i..][1..] == effects[i + 1..];
        if !effects[i].Noop? {
          var done := interpreter.Interpret(effects[i]);
          if !done {
            return false;
          }
        }
      }
      return true;
    }
  }
}
