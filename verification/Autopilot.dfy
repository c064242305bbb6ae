/** The autopilot cell: which command an event triggers, and under which key. */
module Autopilot {
  import opened Text
  import opened Kernel
  import opened CellRuntimes
  import opened RuntimeRuns

  const CMD_NOTIFY_AUTOPILOT_DISPATCH := "NotifyAutopilotDispatch"
  const CMD_RUN_AUTOPILOT_TICK := "RunAutopilotTick"
  const CMD_RUN_BOARD_DISPATCH := "RunBoardDispatch"

  const BOARD_TASK_CREATED := "BoardEvent::TaskCreated"
  const BOARD_UPDATED_OPEN := "BoardEvent::Updated(status=open)"
  const BOARD_STATUS_CHANGED_OPEN := "BoardEvent::StatusChanged(new_status=open)"
  const SLOT_BECAME_IDLE := "SlotEvent::BecameIdle"
  const SYSTEM_TICK_AUTOPILOT_60S := "SystemTick::Autopilot60s"
  const COMMAND_NOTIFY_AUTOPILOT_DISPATCH := "Command::NotifyAutopilotDispatch"

  const NOTIFY_PREFIX := "autopilot-notify:"
  const TICK_PREFIX := "autopilot-tick:"
  const DISPATCH_PREFIX := "autopilot-dispatch:"

  /** The JSON payload of a command, as its two fields. */
  function CommandPayload(event: EventEnvelope): string {
    "event_id=" + event.id + ",event_kind=" + event.kind
  }

  function NotifyCommand(event: EventEnvelope): Effect {
    Command(CMD_NOTIFY_AUTOPILOT_DISPATCH, CommandPayload(event),
            Some(NOTIFY_PREFIX + event.id), Some("autopilot.dispatch.notify"))
  }

  function TickCommand(event: EventEnvelope): Effect {
    Command(CMD_RUN_AUTOPILOT_TICK, CommandPayload(event), Some(TICK_PREFIX + event.id), Some("autopilot.tick"))
  }

  function DispatchCommand(event: EventEnvelope): Effect {
    Command(CMD_RUN_BOARD_DISPATCH, CommandPayload(event),
            Some(DISPATCH_PREFIX + event.id), Some("autopilot.board.dispatch"))
  }

  predicate IsWakeup(kind: string) {
    || kind == BOARD_TASK_CREATED
    || kind == BOARD_UPDATED_OPEN
    || kind == BOARD_STATUS_CHANGED_OPEN
    || kind == SLOT_BECAME_IDLE
  }

  function OnEvent(event: EventEnvelope): (effects: seq<Effect>)
    ensures |effects| == 1 && (effects[0].Noop? || (effects[0].Command? && effects[0].key.Some?))
    ensures effects[0].Command? && effects[0].commandType == CMD_NOTIFY_AUTOPILOT_DISPATCH
       <==> || event.kind == "BoardEvent::TaskCreated"
            || event.kind == "BoardEvent::Updated(status=open)"
            || event.kind == "BoardEvent::StatusChanged(new_status=open)"
            || event.kind == "SlotEvent::BecameIdle"
    ensures event.kind == SYSTEM_TICK_AUTOPILOT_60S
       <==> effects[0].Command? && effects[0].commandType == CMD_RUN_AUTOPILOT_TICK
    ensures event.kind == COMMAND_NOTIFY_AUTOPILOT_DISPATCH
       <==> effects[0].Command? && effects[0].commandType == CMD_RUN_BOARD_DISPATCH
  {
    if IsWakeup(event.kind) then [NotifyCommand(event)]
    else if event.kind == SYSTEM_TICK_AUTOPILOT_60S then [TickCommand(event)]
    else if event.kind == COMMAND_NOTIFY_AUTOPILOT_DISPATCH then [DispatchCommand(event)]
    else [Noop]
  }

  function AutopilotInput(event: EventEnvelope): Input {
    Input(event, Effects(OnEvent(event)))
  }

  function AutopilotInputs(events: seq<EventEnvelope>): seq<Input> {
    if events == [] then []
    else AutopilotInputs(events[..|events| - 1]) + [AutopilotInput(events[|events| - 1])]
  }

  lemma PrefixesNeverCollide(x: string, y: string)
    ensures NOTIFY_PREFIX + x != TICK_PREFIX + y
    ensures NOTIFY_PREFIX + x != DISPATCH_PREFIX + y
    ensures TICK_PREFIX + x != DISPATCH_PREFIX + y
  {
    assert (NOTIFY_PREFIX + x)[10] == 'n';
    assert (TICK_PREFIX + x)[10] == 't' && (TICK_PREFIX + y)[10] == 't';
    assert (DISPATCH_PREFIX + y)[10] == 'd';
  }

  lemma PrefixCancels(p: string, x: string, y: string)
    requires p + x == p + y
    ensures x == y
  {
    assert (p + x)[|p|..] == x && (p + y)[|p|..] == y;
  }

  /** Two events share a key only if they have the same id and trigger the same command. */
  lemma KeysIdentifyCommands(e: EventEnvelope, f: EventEnvelope)
    requires OnEvent(e)[0].IdempotencyKey().Some?
    requires OnEvent(e)[0].IdempotencyKey() == OnEvent(f)[0].IdempotencyKey()
    ensures e.id == f.id && OnEvent(e)[0].commandType == OnEvent(f)[0].commandType
  {
    PrefixesNeverCollide(e.id, f.id);
    PrefixesNeverCollide(f.id, e.id);
    if OnEvent(e)[0].commandType == CMD_NOTIFY_AUTOPILOT_DISPATCH {
      PrefixCancels(NOTIFY_PREFIX, e.id, f.id);
    } else if OnEvent(e)[0].commandType == CMD_RUN_AUTOPILOT_TICK {
      PrefixCancels(TICK_PREFIX, e.id, f.id);
    } else {
      PrefixCancels(DISPATCH_PREFIX, e.id, f.id);
    }
  }

  /** Deduplicating the cell's single effect offers its key once. */
  lemma SingleEffectDedup(capacity: nat, accepted: seq<string>, event: EventEnvelope)
    ensures var effect := OnEvent(event)[0];
            var now := AcceptedAfter(capacity, accepted, OnEvent(event));
            && now == (if effect.Command? then Offer(capacity, accepted, effect.key.value) else accepted)
            && Retained(capacity, accepted, OnEvent(event))
               == if effect.Command? && now == accepted then [] else [effect]
  {
    assert OnEvent(event)[..0] == [];
  }

  /** Each event of this cell adds at most one key. */
  lemma {:induction false} EventsAddFewKeys(b: RuntimeBudgets, past: seq<Input>, events: seq<EventEnvelope>)
    ensures var a, z := GuardRun(b, past).accepted, GuardRun(b, past + AutopilotInputs(events)).accepted;
            a <= z && |z| <= |a| + |events|
  {
    hide GuardRun, OnEvent;
    if events == [] {
      assert past + AutopilotInputs(events) == past;
    } else {
      var before, e := events[..|events| - 1], events[|events| - 1];
      EventsAddFewKeys(b, past, before);
      assert past + AutopilotInputs(events) == (past + AutopilotInputs(before)) + [AutopilotInput(e)];
      GuardRunPushed(b, past + AutopilotInputs(before), AutopilotInput(e));
      SingleEffectDedup(b.idempotencyCacheSize, GuardRun(b, past + AutopilotInputs(before)).accepted, e);
    }
  }

  /** One delivery: a command is reported unless the budget refuses the event or its key is still
      in the window. */
  lemma DeliveryIsSilentIff(b: RuntimeBudgets, g: GuardState, e: EventEnvelope)
    requires OnEvent(e)[0].Command?
    ensures Reported(b, g, e, Effects(OnEvent(e))) == []
       <==> !Admits(b, g.counts, e) || OnEvent(e)[0].key.value in LastN(g.accepted, b.idempotencyCacheSize)
    ensures Reported(b, g, e, Effects(OnEvent(e))) == [] || Reported(b, g, e, Effects(OnEvent(e))) == OnEvent(e)
  {
    SingleEffectDedup(b.idempotencyCacheSize, g.accepted, e);
  }

  /** The cell's reply carries an effect with that key. */
  predicate Offers(i: Input, key: string) {
    i.reply.Effects? && key in Keys(i.reply.effects)
  }

  ghost predicate NoneOffers(inputs: seq<Input>, key: string) {
    forall i <- inputs :: !Offers(i, key)
  }

  /** Deduplication only removes keys. */
  lemma {:induction false} RetainedKeysWereOffered(capacity: nat, accepted: seq<string>,
                                                   effects: seq<Effect>, key: string)
    requires key in Keys(Retained(capacity, accepted, effects))
    ensures key in Keys(effects)
  {
    hide AcceptedAfter, Offer;
    if effects == [] {
    } else {
      var front, last := effects[..|effects| - 1], effects[|effects| - 1];
      var kept := Retained(capacity, accepted, front);
      assert (kept + [last])[..|kept|] == kept;
      if key in Keys(kept) {
        RetainedKeysWereOffered(capacity, accepted, front, key);
      }
    }
  }

  /** Inputs that do not offer a key only append other keys to the accepted ones. */
  lemma {:induction false} OtherKeysAppend(b: RuntimeBudgets, past: seq<Input>, others: seq<Input>, key: string)
    requires NoneOffers(others, key)
    ensures var a, z := GuardRun(b, past).accepted, GuardRun(b, past + others).accepted;
            a <= z && key !in z[|a|..]
  {
    hide GuardRun, Retained, Keys, GuardAfter, Admits;
    if others == [] {
      assert past + others == past;
    } else {
      var before, i := others[..|others| - 1], others[|others| - 1];
      assert i in others && forall x <- before :: x in others;
      OtherKeysAppend(b, past, before, key);
      var g := GuardRun(b, past + before);
      assert past + others == (past + before) + [i];
      GuardRunPushed(b, past + before, i);
      AppendedKeys(b, g, i);
      if key in Keys(Reported(b, g, i.event, i.reply)) {
        ReportedNeedsEffects(b, g, i, key);
        RetainedKeysWereOffered(b.idempotencyCacheSize, g.accepted, i.reply.effects, key);
      }
    }
  }

  lemma ReportedNeedsEffects(b: RuntimeBudgets, g: GuardState, i: Input, key: string)
    requires key in Keys(Reported(b, g, i.event, i.reply))
    ensures i.reply.Effects?
    ensures Reported(b, g, i.event, i.reply) == Retained(b.idempotencyCacheSize, g.accepted, i.reply.effects)
  {
  }

  /** A key with no later occurrence is in the window if and only if fewer than `capacity` keys
      follow it. */
  lemma InWindowIff(accepted: seq<string>, at: nat, capacity: nat)
    requires at < |accepted| && accepted[at] !in accepted[at + 1..]
    ensures accepted[at] in LastN(accepted, capacity) <==> |accepted| - (at + 1) < capacity
  {
    var w := LastN(accepted, capacity);
    var start := |accepted| - |w|;
    if at >= start {
      assert w[at - start] == accepted[at];
    } else {
      forall k | 0 <= k < |w|
        ensures w[k] != accepted[at]
      {
        assert w[k] == accepted[at + 1..][start + k - (at + 1)];
      }
    }
  }

  /** Redelivery: an event whose command was let through, handled again after any inputs of any
      cells that do not offer its key, triggers its command again if and only if the budget
      admits it and at least `capacity` further keys were accepted since. */
  lemma RedeliveryIsSilentIff(b: RuntimeBudgets, past: seq<Input>, e: EventEnvelope, others: seq<Input>)
    requires OnEvent(e)[0].Command? && NoneOffers(others, OnEvent(e)[0].key.value)
    requires Reported(b, GuardRun(b, past), e, Effects(OnEvent(e))) != []
    ensures var first := GuardRun(b, past + [AutopilotInput(e)]);
            var now := GuardRun(b, past + [AutopilotInput(e)] + others);
            && |first.accepted| <= |now.accepted|
            && (Reported(b, now, e, Effects(OnEvent(e))) == []
                <==> !Admits(b, now.counts, e) || |now.accepted| - |first.accepted| < b.idempotencyCacheSize)
  {
    hide GuardRun, OnEvent, Retained, AcceptedAfter, Admits;
    var key, cap := OnEvent(e)[0].key.value, b.idempotencyCacheSize;
    var a := GuardRun(b, past).accepted;
    GuardRunPushed(b, past, AutopilotInput(e));
    SingleEffectDedup(cap, a, e);
    var first, now := GuardRun(b, past + [AutopilotInput(e)]), GuardRun(b, past + [AutopilotInput(e)] + others);
    assert first.accepted == a + [key];
    OtherKeysAppend(b, past + [AutopilotInput(e)], others, key);
    assert now.accepted[|a|] == first.accepted[|a|] == key;
    InWindowIff(now.accepted, |a|, cap);
    DeliveryIsSilentIff(b, now, e);
  }

  lemma KeysOfOneCommand(e: EventEnvelope)
    ensures Keys(OnEvent(e)) == if OnEvent(e)[0].Command? then [OnEvent(e)[0].key.value] else []
  {
    assert OnEvent(e)[..0] == [];
  }

  /** Events of this cell with other ids never offer the key. */
  lemma OtherIdsOfferOtherKeys(e: EventEnvelope, others: seq<EventEnvelope>)
    requires OnEvent(e)[0].Command? && forall o <- others :: o.id != e.id
    ensures NoneOffers(AutopilotInputs(others), OnEvent(e)[0].key.value)
  {
    hide Keys;
    forall i | i in AutopilotInputs(others)
      ensures !Offers(i, OnEvent(e)[0].key.value)
    {
      var o := AutopilotInputOf(others, i);
      KeysOfOneCommand(o);
      if Offers(i, OnEvent(e)[0].key.value) {
        KeysIdentifyCommands(e, o);
      }
    }
  }

  lemma {:induction false} AutopilotInputOf(events: seq<EventEnvelope>, i: Input) returns (e: EventEnvelope)
    requires i in AutopilotInputs(events)
    ensures e in events && i == AutopilotInput(e)
  {
    var front, last := events[..|events| - 1], events[|events| - 1];
    if i == AutopilotInput(last) {
      e := last;
    } else {
      e := AutopilotInputOf(front, i);
    }
  }

  /** In particular, fewer than `capacity` events of this cell in between, whatever their ids,
      keep redelivery silent. */
  lemma RedeliveryIsSilent(b: RuntimeBudgets, past: seq<Input>, e: EventEnvelope, others: seq<EventEnvelope>)
    requires |others| < b.idempotencyCacheSize
    requires OnEvent(e)[0].Command?
    requires Reported(b, GuardRun(b, past), e, Effects(OnEvent(e))) != []
    ensures Reported(b, GuardRun(b, past + [AutopilotInput(e)] + AutopilotInputs(others)), e, Effects(OnEvent(e))) == []
  {
    hide GuardRun, OnEvent, Retained, AcceptedAfter, Admits;
    var first := past + [AutopilotInput(e)];
    var key := OnEvent(e)[0].key.value;
    var a := GuardRun(b, past).accepted;
    GuardRunPushed(b, past, AutopilotInput(e));
    SingleEffectDedup(b.idempotencyCacheSize, a, e);
    EventsAddFewKeys(b, first, others);
    var now := GuardRun(b, first + AutopilotInputs(others));
    DeliveryIsSilentIff(b, now, e);
    assert now.accepted[|a|] == (a + [key])[|a|] == key;
    var w := LastN(now.accepted, b.idempotencyCacheSize);
    assert w[|a| - (|now.accepted| - |w|)] == key;
  }

  /** Keys are recorded before interpretation, so whether a command whose interpretation failed is
      tried again on redelivery does not depend on the failure: the interpreter is given it again
      if and only if the budget admits the event and at least `capacity` further keys were
      accepted since. */
  lemma FailedCommandIsRetriedIff(b: RuntimeBudgets, verdict: Verdict, past: seq<Input>,
                                  e: EventEnvelope, others: seq<Input>)
    requires OnEvent(e)[0].Command? && NoneOffers(others, OnEvent(e)[0].key.value)
    requires Answer(Active, b, verdict, Run(Active, b, verdict, past).state, e, Effects(OnEvent(e)))
          == InterpreterFailed
    ensures var first := Run(Active, b, verdict, past + [AutopilotInput(e)]).state;
            var now := Run(Active, b, verdict, past + [AutopilotInput(e)] + others).state;
            var retried := Admits(b, now.guard.counts, e)
                           && |now.guard.accepted| - |first.guard.accepted| >= b.idempotencyCacheSize;
            StateAfter(Active, b, verdict, now, e, Effects(OnEvent(e))).calls
            == if retried then now.calls + OnEvent(e) else now.calls
  {
    hide Run, GuardRun, OnEvent, Retained, Admits, GuardAfter;
    ModesAgreeOnGuard(Active, b, verdict, past);
    ModesAgreeOnGuard(Active, b, verdict, past + [AutopilotInput(e)]);
    ModesAgreeOnGuard(Active, b, verdict, past + [AutopilotInput(e)] + others);
    FailureMeansReported(b, verdict, Run(Active, b, verdict, past).state, e);
    RedeliveryIsSilentIff(b, past, e, others);
    var now := Run(Active, b, verdict, past + [AutopilotInput(e)] + others).state;
    DeliveryIsSilentIff(b, now.guard, e);
    SingleCommandInterpreted(verdict, |now.calls|, e);
  }

  lemma FailureMeansReported(b: RuntimeBudgets, verdict: Verdict, s: RuntimeState, e: EventEnvelope)
    requires Answer(Active, b, verdict, s, e, Effects(OnEvent(e))) == InterpreterFailed
    ensures Reported(b, s.guard, e, Effects(OnEvent(e))) != []
  {
  }

  lemma SingleCommandInterpreted(verdict: Verdict, n: nat, e: EventEnvelope)
    requires OnEvent(e)[0].Command?
    ensures Interpreted(verdict, n, OnEvent(e)) == OnEvent(e)
  {
    assert OnEvent(e)[1..] == [];
  }

  /** With a window of no keys nothing is remembered: every admitted redelivery triggers the
      command again. */
  lemma EmptyWindowAlwaysRetries(b: RuntimeBudgets, g: GuardState, e: EventEnvelope)
    requires b.idempotencyCacheSize == 0 && OnEvent(e)[0].Command?
    ensures Reported(b, g, e, Effects(OnEvent(e))) == [] <==> !Admits(b, g.counts, e)
  {
    DeliveryIsSilentIff(b, g, e);
  }
}
