/** Threads that give a slot back only by dropping the guard they got for it. */
module SlotGuards {
  import opened SlotProtocol

  /** The table, and the guards alive: which thread holds one for which slot. */
  datatype GuardedState = GuardedState(table: State, guards: set<(Thread, Slot)>)

  const NO_GUARDS := GuardedState(INITIAL, {})

  /** A thread releases a slot only through a guard it holds. */
  predicate CanStep(g: GuardedState, step: Step) {
    && Enabled(g.table, step)
    && (step.Begin? && step.call.Release? ==> (step.t, step.call.slot) in g.guards)
  }

  /** Dropping a guard uses it up; a successful acquire yields one. */
  function StepOn(g: GuardedState, step: Step): GuardedState
    requires CanStep(g, step)
  {
    var guards :=
      if step.Begin? && step.call.Release? then g.guards - {(step.t, step.call.slot)}
      else if step.Access? && PcOf(g.table, step.t).call.TryAcquire? && Result(g.table, step.t)
      then g.guards + {(step.t, PcOf(g.table, step.t).call.slot)}
      else g.guards;
    GuardedState(After(g.table, step), guards)
  }

  ghost predicate IsGuardedRun(g: GuardedState, steps: seq<Step>)
    decreases |steps|
  {
    steps == [] || (CanStep(g, steps[0]) && IsGuardedRun(StepOn(g, steps[0]), steps[1..]))
  }

  ghost function FinalState(g: GuardedState, steps: seq<Step>): GuardedState
    requires IsGuardedRun(g, steps)
    decreases |steps|
  {
    if steps == [] then g else FinalState(StepOn(g, steps[0]), steps[1..])
  }

  /** A guard's thread owns its slot, and a thread giving a slot back has no guard for it any more. */
  ghost predicate GuardsOwn(g: GuardedState) {
    && g.guards <= g.table.owners
    && ReleasersOwn(g.table)
    && forall t <- g.table.pcs :: !g.table.pcs[t].Idle? && g.table.pcs[t].call.Release? ==>
         (t, g.table.pcs[t].call.slot) !in g.guards
  }

  lemma StepKeepsGuards(g: GuardedState, step: Step)
    requires GuardsOwn(g) && CanStep(g, step)
    ensures OwnerReleases(g.table, step) && GuardsOwn(StepOn(g, step))
  {
    var g' := StepOn(g, step);
    assert forall u <- g'.table.pcs :: u != step.t ==> u in g.table.pcs && g'.table.pcs[u] == g.table.pcs[u];
  }

  /** Guards supply the discipline: whoever releases only by dropping guards, releases only what
      it owns. */
  lemma {:induction false} GuardedRunsAreDisciplined(g: GuardedState, steps: seq<Step>)
    requires GuardsOwn(g) && IsGuardedRun(g, steps)
    ensures IsRun(g.table, steps) && IsDisciplined(g.table, steps)
    ensures FinalState(g, steps).table == Final(g.table, steps) && GuardsOwn(FinalState(g, steps))
    decreases |steps|
  {
    if steps == [] {
    } else {
      StepKeepsGuards(g, steps[0]);
      hide GuardsOwn, OwnerReleases, CanStep;
      GuardedRunsAreDisciplined(StepOn(g, steps[0]), steps[1..]);
    }
  }

  /** Mutual exclusion of guards, in every interleaving from the empty table on: a slot with a
      guard is held, and two guards of one slot belong to the same thread. */
  lemma GuardsExclude(steps: seq<Step>, t: Thread, u: Thread, slot: Slot)
    requires IsGuardedRun(NO_GUARDS, steps) && (t, slot) in FinalState(NO_GUARDS, steps).guards
    ensures TableInv(FinalState(NO_GUARDS, steps).table) && slot in Held(FinalState(NO_GUARDS, steps).table)
    ensures (u, slot) in FinalState(NO_GUARDS, steps).guards ==> t == u
  {
    InitialState();
    GuardedRunsAreDisciplined(NO_GUARDS, steps);
    RunsAreExclusive(INITIAL, steps);
    var owners := Final(INITIAL, steps).owners;
    assert (t, slot) in owners && (t, slot).1 in Held(Final(INITIAL, steps));
    if (u, slot) in owners {
      AtMostOneOwner(steps, t, u, slot);
    }
  }
}
