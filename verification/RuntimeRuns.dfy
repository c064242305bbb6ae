/** Properties of whole runs of the cell runtime. */
module RuntimeRuns {
  import opened Text
  import opened Kernel
  import opened CellRuntimes
  import opened Selection

  /** An event together with the cell's reply to it, which no activation mode influences. */
  datatype Input = Input(event: EventEnvelope, reply: CellReply)

  datatype RunState = RunState(state: RuntimeState, answers: seq<Handled>)

  const FRESH_RUNTIME := RuntimeState(FRESH_GUARD, [])

  function Run(mode: ActivationMode, b: RuntimeBudgets, verdict: Verdict, inputs: seq<Input>): RunState {
    if inputs == [] then RunState(FRESH_RUNTIME, [])
    else
      var before, i := Run(mode, b, verdict, inputs[..|inputs| - 1]), inputs[|inputs| - 1];
      RunState(StateAfter(mode, b, verdict, before.state, i.event, i.reply),
               before.answers + [Answer(mode, b, verdict, before.state, i.event, i.reply)])
  }

  /** The guard on its own, without any mode or interpreter. */
  function GuardRun(b: RuntimeBudgets, inputs: seq<Input>): GuardState {
    if inputs == [] then FRESH_GUARD
    else GuardAfter(b, GuardRun(b, inputs[..|inputs| - 1]), inputs[|inputs| - 1].event, inputs[|inputs| - 1].reply)
  }

  function ReportedRun(b: RuntimeBudgets, inputs: seq<Input>): seq<Effect> {
    if inputs == [] then []
    else
      var past, i := inputs[..|inputs| - 1], inputs[|inputs| - 1];
      ReportedRun(b, past) + Reported(b, GuardRun(b, past), i.event, i.reply)
  }

  lemma GuardRunPushed(b: RuntimeBudgets, inputs: seq<Input>, i: Input)
    ensures GuardRun(b, inputs + [i]) == GuardAfter(b, GuardRun(b, inputs), i.event, i.reply)
  {
    assert (inputs + [i])[..|inputs|] == inputs;
  }

  // ---------- Activation modes ----------

  /** The same events drive the guard through the same states in every mode, whatever the
      interpreter answers. */
  lemma {:induction false} ModesAgreeOnGuard(mode: ActivationMode, b: RuntimeBudgets, verdict: Verdict,
                                             inputs: seq<Input>)
    ensures Run(mode, b, verdict, inputs).state.guard == GuardRun(b, inputs)
    ensures |Run(mode, b, verdict, inputs).answers| == |inputs|
  {
    if inputs == [] {
    } else {
      ModesAgreeOnGuard(mode, b, verdict, inputs[..|inputs| - 1]);
    }
  }

  /** Shadow and rollback never reach the interpreter. */
  lemma {:induction false} PassiveModesInterpretNothing(mode: ActivationMode, b: RuntimeBudgets, verdict: Verdict,
                                                        inputs: seq<Input>)
    requires !mode.Active?
    ensures Run(mode, b, verdict, inputs).state.calls == []
  {
    if inputs == [] {
    } else {
      PassiveModesInterpretNothing(mode, b, verdict, inputs[..|inputs| - 1]);
    }
  }

  function NonNoop(effects: seq<Effect>): seq<Effect> {
    if effects == [] then []
    else NonNoop(effects[..|effects| - 1]) + (if effects[|effects| - 1].Noop? then [] else [effects[|effects| - 1]])
  }

  lemma {:induction false} NonNoopConcat(a: seq<Effect>, c: seq<Effect>)
    ensures NonNoop(a + c) == NonNoop(a) + NonNoop(c)
  {
    if c == [] {
      assert a + c == a;
    } else {
      assert (a + c)[..|a + c| - 1] == a + c[..|c| - 1];
      NonNoopConcat(a, c[..|c| - 1]);
    }
  }

  ghost predicate SkipsNoops(effects: seq<Effect>, kept: seq<Effect>) {
    exists pos: seq<nat> ::
      Selects(effects, kept, pos) && forall i :: 0 <= i < |effects| ==> (i in pos <==> !effects[i].Noop?)
  }

  /** Exactly the no-ops are left out, and the rest keeps its order. */
  lemma {:induction false} NonNoopSkips(effects: seq<Effect>)
    ensures SkipsNoops(effects, NonNoop(effects))
  {
    hide SkipsNoops;
    if effects == [] {
      NoEffectsSkipped();
    } else {
      var front, last := effects[..|effects| - 1], effects[|effects| - 1];
      NonNoopSkips(front);
      SkipsPushed(front, NonNoop(front), last);
      assert effects == front + [last];
    }
  }

  lemma NoEffectsSkipped()
    ensures SkipsNoops([], [])
  {
    assert Selects<Effect>([], [], []);
  }

  lemma SkipsPushed(front: seq<Effect>, kept: seq<Effect>, last: Effect)
    requires SkipsNoops(front, kept)
    ensures SkipsNoops(front + [last], kept + if last.Noop? then [] else [last])
  {
    var pos: seq<nat> :|
      Selects(front, kept, pos) && forall i :: 0 <= i < |front| ==> (i in pos <==> !front[i].Noop?);
    hide Selects;
    var more := SelectsPushed(front, kept, pos, last, !last.Noop?);
    assert last.Noop? ==> kept + [] == kept;
  }

  lemma NonNoopFirst(effects: seq<Effect>)
    requires effects != []
    ensures NonNoop(effects) == (if effects[0].Noop? then [] else [effects[0]]) + NonNoop(effects[1..])
  {
    assert effects == [effects[0]] + effects[1..];
    NonNoopConcat([effects[0]], effects[1..]);
    assert NonNoop([effects[0]]) == if effects[0].Noop? then [] else [effects[0]];
  }

  ghost predicate NeverFails(verdict: Verdict) {
    forall n: nat, e: Effect :: verdict(n, e)
  }

  /** The interpreter sees a prefix of the non-noop effects, and all of them if none fails. */
  lemma {:induction false} InterpretedIsPrefix(verdict: Verdict, n: nat, effects: seq<Effect>)
    ensures Interpreted(verdict, n, effects) <= NonNoop(effects)
    ensures AllSucceed(verdict, n, effects) ==> Interpreted(verdict, n, effects) == NonNoop(effects)
    decreases |effects|
  {
    assert NonNoop([]) == [];
    hide NonNoop;
    if effects == [] {
    } else {
      NonNoopFirst(effects);
      var e, rest := effects[0], effects[1..];
      if e.Noop? {
        InterpretedIsPrefix(verdict, n, rest);
      } else if verdict(n, e) {
        InterpretedIsPrefix(verdict, n + 1, rest);
        PrefixCons(e, Interpreted(verdict, n + 1, rest), NonNoop(rest));
      } else {
        assert ([e] + NonNoop(rest))[..1] == [e];
      }
    }
  }

  /** Interpretation stops early only at an effect that failed. */
  lemma {:induction false} StopsAtFailure(verdict: Verdict, n: nat, effects: seq<Effect>)
    requires !AllSucceed(verdict, n, effects)
    ensures var done := Interpreted(verdict, n, effects); done != [] && !verdict(n + |done| - 1, done[|done| - 1])
    decreases |effects|
  {
    if effects[0].Noop? {
      StopsAtFailure(verdict, n, effects[1..]);
    } else if verdict(n, effects[0]) {
      StopsAtFailure(verdict, n + 1, effects[1..]);
    }
  }

  /** Interpretation succeeds if and only if none of the effects that are no no-ops fails. */
  lemma {:induction false} SucceedsIffNoneFails(verdict: Verdict, n: nat, effects: seq<Effect>)
    ensures AllSucceed(verdict, n, effects)
       <==> forall k :: 0 <= k < |NonNoop(effects)| ==> verdict(n + k, NonNoop(effects)[k])
    decreases |effects|
  {
    assert NonNoop([]) == [];
    hide NonNoop;
    if effects == [] {
    } else {
      var e, rest := effects[0], effects[1..];
      NonNoopFirst(effects);
      if e.Noop? {
        SucceedsIffNoneFails(verdict, n, rest);
        assert [] + NonNoop(rest) == NonNoop(rest);
      } else {
        SucceedsIffNoneFails(verdict, n + 1, rest);
        FirstAndRest(verdict, n, e, NonNoop(rest));
      }
    }
  }

  lemma FirstAndRest(verdict: Verdict, n: nat, e: Effect, rest: seq<Effect>)
    ensures (forall k :: 0 <= k < |[e] + rest| ==> verdict(n + k, ([e] + rest)[k]))
       <==> verdict(n, e) && forall k :: 0 <= k < |rest| ==> verdict(n + 1 + k, rest[k])
  {
    var all := [e] + rest;
    if verdict(n, e) && forall k :: 0 <= k < |rest| ==> verdict(n + 1 + k, rest[k]) {
      forall k | 0 <= k < |all|
        ensures verdict(n + k, all[k])
      {
        if k > 0 {
          assert verdict(n + 1 + (k - 1), rest[k - 1]);
        }
      }
    }
    if forall k :: 0 <= k < |all| ==> verdict(n + k, all[k]) {
      assert verdict(n + 0, all[0]);
      forall k | 0 <= k < |rest|
        ensures verdict(n + 1 + k, rest[k])
      {
        assert verdict(n + (k + 1), all[k + 1]);
      }
    }
  }

  lemma PrefixCons<T>(x: T, a: seq<T>, b: seq<T>)
    requires a <= b
    ensures [x] + a <= [x] + b
    ensures a == b ==> [x] + a == [x] + b
  {
  }

  lemma {:induction false} NeverFailingSucceeds(verdict: Verdict, n: nat, effects: seq<Effect>)
    requires NeverFails(verdict)
    ensures AllSucceed(verdict, n, effects)
    decreases |effects|
  {
    if effects == [] {
    } else {
      NeverFailingSucceeds(verdict, if effects[0].Noop? then n else n + 1, effects[1..]);
    }
  }

  predicate SameReport(a: Handled, c: Handled) {
    match (a, c)
    case (Ok(x), Ok(y)) => x.effects == y.effects
    case _ => a == c
  }

  /** Without interpreter failures a shadow or rollback run reports, event by event, what the
      active run reports, and the active run interprets exactly the reported effects in order. */
  lemma {:induction false} ModeSimulation(mode: ActivationMode, b: RuntimeBudgets, v: Verdict, verdict: Verdict,
                                          inputs: seq<Input>)
    requires NeverFails(verdict) && !mode.Active?
    ensures var passive, active := Run(mode, b, v, inputs).answers, Run(Active, b, verdict, inputs).answers;
            && |passive| == |active|
            && forall i :: 0 <= i < |passive| ==> SameReport(passive[i], active[i])
    ensures Run(Active, b, verdict, inputs).state.calls == NonNoop(ReportedRun(b, inputs))
  {
    if inputs == [] {
    } else {
      var past, i := inputs[..|inputs| - 1], inputs[|inputs| - 1];
      ModeSimulation(mode, b, v, verdict, past);
      ModesAgreeOnGuard(mode, b, v, past);
      ModesAgreeOnGuard(Active, b, verdict, past);
      var s := Run(Active, b, verdict, past).state;
      var reported := Reported(b, s.guard, i.event, i.reply);
      NeverFailingSucceeds(verdict, |s.calls|, reported);
      InterpretedIsPrefix(verdict, |s.calls|, reported);
      NonNoopConcat(ReportedRun(b, past), reported);
    }
  }

  // ---------- At most once ----------

  /** The idempotency keys carried by a list of effects, in order. */
  function Keys(effects: seq<Effect>): seq<string> {
    if effects == [] then []
    else
      match effects[|effects| - 1].IdempotencyKey()
      case None => Keys(effects[..|effects| - 1])
      case Some(key) => Keys(effects[..|effects| - 1]) + [key]
  }

  /** The effects in `carriers` are exactly the keyed commands, in order, and `keys` are their keys. */
  ghost predicate CarriesKeys(effects: seq<Effect>, keys: seq<string>) {
    exists carriers: seq<Effect>, pos: seq<nat> ::
      && Selects(effects, carriers, pos)
      && (forall i :: 0 <= i < |effects| ==> (i in pos <==> effects[i].Command? && effects[i].key.Some?))
      && |keys| == |carriers|
      && (forall k :: 0 <= k < |keys| ==> carriers[k].Command? && carriers[k].key == Some(keys[k]))
  }

  /** The keys are those of the keyed commands, in order. */
  lemma {:induction false} KeysAreCarried(effects: seq<Effect>)
    ensures CarriesKeys(effects, Keys(effects))
  {
    hide CarriesKeys;
    if effects == [] {
      NoKeysCarried();
    } else {
      var front, last := effects[..|effects| - 1], effects[|effects| - 1];
      KeysAreCarried(front);
      CarriesPushed(front, Keys(front), last);
      assert effects == front + [last];
    }
  }

  lemma NoKeysCarried()
    ensures CarriesKeys([], [])
  {
    assert Selects<Effect>([], [], []);
  }

  lemma CarriesPushed(front: seq<Effect>, keys: seq<string>, last: Effect)
    requires CarriesKeys(front, keys)
    ensures CarriesKeys(front + [last], if last.Command? && last.key.Some? then keys + [last.key.value] else keys)
  {
    var carriers: seq<Effect>, pos: seq<nat> :|
      && Selects(front, carriers, pos)
      && (forall i :: 0 <= i < |front| ==> (i in pos <==> front[i].Command? && front[i].key.Some?))
      && |keys| == |carriers|
      && (forall k :: 0 <= k < |keys| ==> carriers[k].Command? && carriers[k].key == Some(keys[k]));
    hide Selects;
    var more := SelectsPushed(front, carriers, pos, last, last.Command? && last.key.Some?);
  }

  lemma {:induction false} KeysConcat(a: seq<Effect>, c: seq<Effect>)
    ensures Keys(a + c) == Keys(a) + Keys(c)
  {
    if c == [] {
      assert a + c == a;
    } else {
      assert (a + c)[..|a + c| - 1] == a + c[..|c| - 1];
      KeysConcat(a, c[..|c| - 1]);
    }
  }

  lemma KeysPushed(effects: seq<Effect>, e: Effect)
    ensures Keys(effects + [e])
         == match e.IdempotencyKey() case None => Keys(effects) case Some(key) => Keys(effects) + [key]
  {
    assert (effects + [e])[..|effects|] == effects;
  }

  /** What deduplication accepts is exactly what it lets through. */
  lemma {:induction false} AcceptedAreRetained(capacity: nat, accepted: seq<string>, effects: seq<Effect>)
    ensures AcceptedAfter(capacity, accepted, effects) == accepted + Keys(Retained(capacity, accepted, effects))
  {
    if effects == [] {
    } else {
      var front, last := effects[..|effects| - 1], effects[|effects| - 1];
      AcceptedAreRetained(capacity, accepted, front);
      hide Keys, Offer;
      KeysPushed(Retained(capacity, accepted, front), last);
    }
  }

  /** The accepted keys of a run are the keys of the effects it reported. */
  lemma {:induction false} AcceptedAreReported(b: RuntimeBudgets, inputs: seq<Input>)
    ensures GuardRun(b, inputs).accepted == Keys(ReportedRun(b, inputs))
  {
    if inputs == [] {
    } else {
      var past, i := inputs[..|inputs| - 1], inputs[|inputs| - 1];
      AcceptedAreReported(b, past);
      if i.reply.Effects? {
        AcceptedAreRetained(b.idempotencyCacheSize, GuardRun(b, past).accepted, i.reply.effects);
      }
      KeysConcat(ReportedRun(b, past), Reported(b, GuardRun(b, past), i.event, i.reply));
    }
  }

  lemma {:induction false} OffersKeepSpaced(capacity: nat, accepted: seq<string>, effects: seq<Effect>)
    requires Spaced(capacity, accepted)
    ensures Spaced(capacity, AcceptedAfter(capacity, accepted, effects))
  {
    if effects == [] {
    } else {
      var front, last := effects[..|effects| - 1], effects[|effects| - 1];
      OffersKeepSpaced(capacity, accepted, front);
      if last.IdempotencyKey().Some? {
        OfferKeepsSpaced(capacity, AcceptedAfter(capacity, accepted, front), last.IdempotencyKey().value);
      }
    }
  }

  /** Two acceptances of one key are more than `capacity` acceptances apart: any `capacity + 1`
      keys accepted in a row are pairwise distinct. */
  lemma {:induction false} RunIsSpaced(b: RuntimeBudgets, inputs: seq<Input>)
    ensures Spaced(b.idempotencyCacheSize, GuardRun(b, inputs).accepted)
  {
    if inputs == [] {
    } else {
      var past, i := inputs[..|inputs| - 1], inputs[|inputs| - 1];
      RunIsSpaced(b, past);
      if i.reply.Effects? {
        OffersKeepSpaced(b.idempotencyCacheSize, GuardRun(b, past).accepted, i.reply.effects);
      }
    }
  }

  /** `pos` places the elements of `part` inside `whole`, in order. */
  ghost predicate Places(part: seq<string>, whole: seq<string>, pos: seq<nat>) {
    && |pos| == |part|
    && (forall i :: 0 <= i < |pos| ==> pos[i] < |whole| && whole[pos[i]] == part[i])
    && (forall i, j :: 0 <= i < j < |pos| ==> pos[i] < pos[j])
  }

  lemma PlaceMore(part: seq<string>, whole: seq<string>, pos: seq<nat>, more: seq<string>, moreWhole: seq<string>)
    returns (pos': seq<nat>)
    requires Places(part, whole, pos) && more <= moreWhole
    ensures Places(part + more, whole + moreWhole, pos')
  {
    pos' := pos + seq(|more|, k => |whole| + k);
  }

  lemma {:induction false} NoopHasNoKey(effects: seq<Effect>)
    ensures Keys(NonNoop(effects)) == Keys(effects)
  {
    if effects == [] {
    } else {
      var front, last := effects[..|effects| - 1], effects[|effects| - 1];
      NoopHasNoKey(front);
      KeysConcat(NonNoop(front), if last.Noop? then [] else [last]);
      assert Keys([last]) == match last.IdempotencyKey() case None => [] case Some(key) => [key];
    }
  }

  lemma KeysOfPrefix(a: seq<Effect>, c: seq<Effect>)
    requires a <= c
    ensures Keys(a) <= Keys(c)
  {
    assert c == a + c[|a|..];
    KeysConcat(a, c[|a|..]);
  }

  /** The keyed commands an active run interprets are, in order, among the accepted keys,
      even when the interpreter fails at any point. */
  lemma {:induction false} InterpretedWereAccepted(b: RuntimeBudgets, verdict: Verdict, inputs: seq<Input>)
    returns (pos: seq<nat>)
    ensures Places(Keys(Run(Active, b, verdict, inputs).state.calls), GuardRun(b, inputs).accepted, pos)
  {
    if inputs == [] {
      pos := [];
    } else {
      var past, i := inputs[..|inputs| - 1], inputs[|inputs| - 1];
      var before := InterpretedWereAccepted(b, verdict, past);
      ModesAgreeOnGuard(Active, b, verdict, past);
      var s := Run(Active, b, verdict, past).state;
      var reported := Reported(b, s.guard, i.event, i.reply);
      var done := Interpreted(verdict, |s.calls|, reported);
      InterpretedIsPrefix(verdict, |s.calls|, reported);
      NoopHasNoKey(reported);
      KeysOfPrefix(done, NonNoop(reported));
      KeysConcat(s.calls, done);
      if i.reply.Effects? {
        AcceptedAreRetained(b.idempotencyCacheSize, s.guard.accepted, i.reply.effects);
      }
      AppendedKeys(b, s.guard, i);
      pos := PlaceMore(Keys(s.calls), s.guard.accepted, before, Keys(done), Keys(reported));
    }
  }

  lemma AppendedKeys(b: RuntimeBudgets, g: GuardState, i: Input)
    ensures GuardAfter(b, g, i.event, i.reply).accepted == g.accepted + Keys(Reported(b, g, i.event, i.reply))
  {
    if i.reply.Effects? {
      AcceptedAreRetained(b.idempotencyCacheSize, g.accepted, i.reply.effects);
    }
  }

  /** Bounded at-most-once: if an active run interprets one key twice, then `capacity` further
      keys, pairwise distinct and different from it, were accepted in between. */
  lemma AtMostOnce(b: RuntimeBudgets, verdict: Verdict, inputs: seq<Input>, i: nat, j: nat) returns (p: nat, q: nat)
    requires var keys := Keys(Run(Active, b, verdict, inputs).state.calls); i < j < |keys| && keys[i] == keys[j]
    ensures var accepted := GuardRun(b, inputs).accepted;
            && p + b.idempotencyCacheSize < q < |accepted|
            && accepted[p] == accepted[q] == Keys(Run(Active, b, verdict, inputs).state.calls)[i]
            && (forall x, y :: p <= x < y <= p + b.idempotencyCacheSize ==> accepted[x] != accepted[y])
  {
    var pos := InterpretedWereAccepted(b, verdict, inputs);
    RunIsSpaced(b, inputs);
    p, q := pos[i], pos[j];
  }

  /** In particular a run that accepts at most one key more than the window holds interprets no
      key twice. */
  lemma ShortRunsNeverRepeat(b: RuntimeBudgets, verdict: Verdict, inputs: seq<Input>, i: nat, j: nat)
    requires |GuardRun(b, inputs).accepted| <= b.idempotencyCacheSize + 1
    requires i < j < |Keys(Run(Active, b, verdict, inputs).state.calls)|
    ensures Keys(Run(Active, b, verdict, inputs).state.calls)[i] != Keys(Run(Active, b, verdict, inputs).state.calls)[j]
  {
    var keys := Keys(Run(Active, b, verdict, inputs).state.calls);
    if keys[i] == keys[j] {
      var p, q := AtMostOnce(b, verdict, inputs, i, j);
      assert false;
    }
  }

  // ---------- Budgets ----------

  /** Events of one correlation that were shallow enough to be counted. */
  function Counted(b: RuntimeBudgets, inputs: seq<Input>, c: string): nat {
    if inputs == [] then 0
    else
      var e := inputs[|inputs| - 1].event;
      Counted(b, inputs[..|inputs| - 1], c) + (if !TooDeep(b, e) && Correlation(e) == c then 1 else 0)
  }

  /** Events of one correlation that passed both budget checks. */
  function Admitted(b: RuntimeBudgets, inputs: seq<Input>, c: string): nat {
    if inputs == [] then 0
    else
      var past, e := inputs[..|inputs| - 1], inputs[|inputs| - 1].event;
      Admitted(b, past, c) + (if Admits(b, GuardRun(b, past).counts, e) && Correlation(e) == c then 1 else 0)
  }

  lemma BumpModulo(n: nat)
    ensures (n % U32_RANGE + 1) % U32_RANGE == (n + 1) % U32_RANGE
  {
  }

  /** The counter is the number of counted events, modulo its width. */
  lemma {:induction false} CounterCounts(b: RuntimeBudgets, inputs: seq<Input>, c: string)
    ensures CountOf(GuardRun(b, inputs).counts, c) == Counted(b, inputs, c) % U32_RANGE
  {
    if inputs == [] {
    } else {
      CounterCounts(b, inputs[..|inputs| - 1], c);
      BumpModulo(Counted(b, inputs[..|inputs| - 1], c));
    }
  }

  /** An event is admitted by how many of its correlation were counted before, modulo 2^32. */
  lemma AdmittedByCount(b: RuntimeBudgets, past: seq<Input>, e: EventEnvelope)
    ensures Admits(b, GuardRun(b, past).counts, e)
       <==> !TooDeep(b, e) && (Counted(b, past, Correlation(e)) + 1) % U32_RANGE <= b.maxEventsPerCorrelation
  {
    CounterCounts(b, past, Correlation(e));
    BumpModulo(Counted(b, past, Correlation(e)));
    hide GuardRun, Counted, TooDeep;
  }

  /** How many of `n` counted events a 32-bit counter admits: the first `max`, and from each wrap
      on, the event that wraps it and `max` more. */
  function Quota(n: nat, max: U32): nat {
    n / U32_RANGE * (max + 1) + if n % U32_RANGE < max then n % U32_RANGE else max
  }

  lemma QuotaSteps(n: nat, max: U32)
    ensures Quota(n + 1, max) == Quota(n, max) + if (n + 1) % U32_RANGE <= max then 1 else 0
  {
    var q, r := n / U32_RANGE, n % U32_RANGE;
    assert n == q * U32_RANGE + r;
    if r + 1 == U32_RANGE {
      assert n + 1 == (q + 1) * U32_RANGE;
      assert (n + 1) / U32_RANGE == q + 1 && (n + 1) % U32_RANGE == 0;
      assert (q + 1) * (max + 1) == q * (max + 1) + max + 1;
    } else {
      assert n + 1 == q * U32_RANGE + (r + 1);
      assert (n + 1) / U32_RANGE == q && (n + 1) % U32_RANGE == r + 1;
    }
  }

  /** The exact number of admitted events of a correlation, over every run. */
  lemma {:induction false} AdmittedIsQuota(b: RuntimeBudgets, inputs: seq<Input>, c: string)
    ensures Admitted(b, inputs, c) == Quota(Counted(b, inputs, c), b.maxEventsPerCorrelation)
  {
    hide Admits, GuardRun, Quota;
    if inputs == [] {
      assert Quota(0, b.maxEventsPerCorrelation) == 0 by { QuotaOfNone(b.maxEventsPerCorrelation); }
    } else {
      var past, e := inputs[..|inputs| - 1], inputs[|inputs| - 1].event;
      AdmittedIsQuota(b, past, c);
      AdmittedByCount(b, past, e);
      QuotaSteps(Counted(b, past, c), b.maxEventsPerCorrelation);
    }
  }

  lemma QuotaOfNone(max: U32)
    ensures Quota(0, max) == 0
  {
  }

  /** The exact condition: a correlation keeps to its budget, so that exactly its first `max`
      counted events are admitted, if and only if its counter has not wrapped. */
  lemma BudgetIsKeptIff(b: RuntimeBudgets, inputs: seq<Input>, c: string)
    ensures var n, max := Counted(b, inputs, c), b.maxEventsPerCorrelation;
            && (Admitted(b, inputs, c) <= max <==> n < U32_RANGE)
            && (Admitted(b, inputs, c) == (if n < max then n else max) <==> n < U32_RANGE)
  {
    AdmittedIsQuota(b, inputs, c);
    QuotaExceeds(Counted(b, inputs, c), b.maxEventsPerCorrelation);
    hide Quota, Admitted, Counted;
  }

  lemma QuotaExceeds(n: nat, max: U32)
    ensures if n < U32_RANGE then Quota(n, max) == (if n < max then n else max) else Quota(n, max) > max
  {
    if n >= U32_RANGE {
      var q := n / U32_RANGE;
      assert q >= 1;
      assert q * (max + 1) >= 1 * (max + 1) by { MulGrows(1, q, max + 1); }
    }
  }

  lemma MulGrows(x: nat, y: nat, z: nat)
    requires x <= y
    ensures x * z <= y * z
  {
  }

  /** The event that wraps the counter is admitted, whatever the maximum. */
  lemma WrapReopensBudget(b: RuntimeBudgets, inputs: seq<Input>, e: EventEnvelope)
    requires Counted(b, inputs, Correlation(e)) == U32_RANGE - 1 && !TooDeep(b, e)
    ensures Admits(b, GuardRun(b, inputs).counts, e)
  {
    AdmittedByCount(b, inputs, e);
  }
}
