/** The compact restart as one thread among many that use the dispatch lock table. */
module CompactLock {
  import opened SlotProtocol
  import opened Text
  import R = CompactRestart

  /** A step of the lock table, or an event of the pass. The pass acquires at its flag access
      and lets go when it starts to release. */
  datatype JointStep = Table(step: Step) | Pass(event: R.Event)

  predicate IsReleasing(s: State, t: Thread) {
    !PcOf(s, t).Idle? && PcOf(s, t).call.Release?
  }

  /** Other threads release only what they own. Nothing of that kind is assumed of `me`, which
      runs the pass: its releases are the pass's. */
  predicate CanStep(me: Thread, s: State, x: JointStep) {
    match x
    case Table(step) =>
      && Enabled(s, step)
      && (step.t != me ==> OwnerReleases(s, step))
      && (step.t == me ==> !(step.Begin? && step.call.Release?) && (step.Access? ==> PcOf(s, me).call.Release?))
    case Pass(Acquire(slot, ok)) =>
      Enabled(s, Access(me)) && PcOf(s, me).call == TryAcquire(slot) && ok == Result(s, me)
    case Pass(Release(slot)) => Enabled(s, Begin(me, Call.Release(slot)))
    case Pass(_) => PcOf(s, me).Idle?
  }

  function StepOn(me: Thread, s: State, x: JointStep): State
    requires CanStep(me, s, x)
  {
    match x
    case Table(step) => After(s, step)
    case Pass(Acquire(_, _)) => After(s, Access(me))
    case Pass(Release(slot)) => After(s, Begin(me, Call.Release(slot)))
    case Pass(_) => s
  }

  ghost predicate IsJointRun(me: Thread, s: State, xs: seq<JointStep>)
    decreases |xs|, 0
  {
    xs == [] || (IsJointRun(me, s, xs[..|xs| - 1]) && CanStep(me, TableAfter(me, s, xs[..|xs| - 1]), xs[|xs| - 1]))
  }

  ghost function TableAfter(me: Thread, s: State, xs: seq<JointStep>): State
    requires IsJointRun(me, s, xs)
    decreases |xs|, 1
  {
    if xs == [] then s else StepOn(me, TableAfter(me, s, xs[..|xs| - 1]), xs[|xs| - 1])
  }

  /** The trace of the pass inside a joint run. */
  function Events(xs: seq<JointStep>): seq<R.Event> {
    if xs == [] then []
    else Events(xs[..|xs| - 1]) + match xs[|xs| - 1] case Pass(e) => [e] case Table(_) => []
  }

  // ---------- What the pass believes and what the table says ----------

  /** What the pass remembers holding it owns, and it owns nothing else, except a slot it is
      just giving back. */
  ghost predicate Agrees(me: Thread, s: State, o: R.Observer) {
    && TableInv(s) && OwnersMatch(s) && ReleasersOwn(s)
    && (forall slot :: (me, slot) in s.owners ==>
          o.holding == Some(slot) || (IsReleasing(s, me) && PcOf(s, me).call.slot == slot))
    && (o.holding.Some? ==> (me, o.holding.value) in s.owners && !IsReleasing(s, me))
  }

  lemma TableStepAgrees(me: Thread, s: State, o: R.Observer, step: Step)
    requires Agrees(me, s, o) && CanStep(me, s, Table(step))
    ensures Agrees(me, After(s, step), o)
  {
    hide TableInv, OwnersMatch, ReleasersOwn;
    StepKeepsOwners(s, step);
    if step.t == me {
      OwnStep(me, s, step);
    } else {
      ForeignStep(me, s, step);
    }
  }

  /** A step of another thread changes neither what this one owns nor where it is. */
  lemma ForeignStep(me: Thread, s: State, step: Step)
    requires Enabled(s, step) && step.t != me
    ensures forall slot :: (me, slot) in After(s, step).owners <==> (me, slot) in s.owners
    ensures PcOf(After(s, step), me) == PcOf(s, me)
  {
  }

  /** A step of the pass's thread that is no event of the pass loses only what it is giving back. */
  lemma OwnStep(me: Thread, s: State, step: Step)
    requires CanStep(me, s, Table(step)) && step.t == me
    ensures IsReleasing(After(s, step), me) ==> IsReleasing(s, me) && PcOf(After(s, step), me).call == PcOf(s, me).call
    ensures forall slot :: (me, slot) in After(s, step).owners ==> (me, slot) in s.owners
    ensures IsReleasing(s, me) ==>
              IsReleasing(After(s, step), me) || (me, PcOf(s, me).call.slot) !in After(s, step).owners
    ensures !IsReleasing(s, me) ==> After(s, step).owners == s.owners
  {
  }

  lemma PassStepAgrees(me: Thread, s: State, o: R.Observer, e: R.Event)
    requires Agrees(me, s, o) && CanStep(me, s, Pass(e)) && R.Allowed(o, e)
    ensures Agrees(me, StepOn(me, s, Pass(e)), R.Seen(o, e))
  {
    hide TableInv, OwnersMatch, ReleasersOwn;
    match e
    case Acquire(slot, ok) => StepKeepsOwners(s, Access(me));
    case Release(slot) => StepKeepsOwners(s, Begin(me, Call.Release(slot)));
    case _ =>
  }

  /** Over every interleaving, the pass owns in the table what its trace says it holds. */
  lemma {:induction false} JointRunAgrees(me: Thread, s: State, o: R.Observer, xs: seq<JointStep>)
    requires Agrees(me, s, o) && IsJointRun(me, s, xs) && R.Obeys(o, Events(xs))
    ensures Agrees(me, TableAfter(me, s, xs), R.Watched(o, Events(xs)))
  {
    hide Agrees, CanStep, StepOn;
    if xs == [] {
    } else {
      var front, x := xs[..|xs| - 1], xs[|xs| - 1];
      var before := Events(front);
      match x
      case Table(step) =>
        assert Events(xs) == before;
        JointRunAgrees(me, s, o, front);
        TableStepAgrees(me, TableAfter(me, s, front), R.Watched(o, before), step);
        StepOnTable(me, TableAfter(me, s, front), step);
      case Pass(e) =>
        R.ObeysPushed(o, before, e);
        JointRunAgrees(me, s, o, front);
        PassStepAgrees(me, TableAfter(me, s, front), R.Watched(o, before), e);
    }
  }

  lemma StepOnTable(me: Thread, s: State, step: Step)
    requires CanStep(me, s, Table(step))
    ensures StepOn(me, s, Table(step)) == After(s, step)
  {
  }

  lemma HolderIsAlone(me: Thread, s: State, o: R.Observer, slot: Slot)
    requires Agrees(me, s, o) && o.holding == Some(slot)
    ensures (me, slot) in s.owners && slot in Held(s) && forall u :: (u, slot) in s.owners ==> u == me
  {
    forall u | (u, slot) in s.owners
      ensures u == me
    {
      assert (u, slot).1 == (me, slot).1;
    }
    assert (me, slot).1 in Held(s);
  }

  lemma {:induction false} PrefixObeys(o: R.Observer, xs: seq<JointStep>, k: nat)
    requires k <= |xs| && R.Obeys(o, Events(xs))
    ensures R.Obeys(o, Events(xs[..k]))
    decreases |xs|
  {
    if k == |xs| {
      assert xs[..k] == xs;
    } else {
      var front := xs[..|xs| - 1];
      if xs[|xs| - 1].Pass? {
        R.ObeysPushed(o, Events(front), xs[|xs| - 1].event);
      } else {
        assert Events(xs) == Events(front);
      }
      PrefixObeys(o, front, k);
      assert front[..k] == xs[..k];
    }
  }

  lemma {:induction false} PrefixIsRun(me: Thread, s: State, xs: seq<JointStep>, k: nat)
    requires k <= |xs| && IsJointRun(me, s, xs)
    ensures IsJointRun(me, s, xs[..k])
    ensures k < |xs| ==> CanStep(me, TableAfter(me, s, xs[..k]), xs[k])
    decreases |xs|
  {
    hide CanStep;
    if k == |xs| {
      assert xs[..k] == xs;
    } else {
      var front := xs[..|xs| - 1];
      PrefixIsRun(me, s, front, k);
      assert front[..k] == xs[..k];
    }
  }

  /** The slot an event may only touch under its lock. */
  function Locked(e: R.Event): Option<Slot> {
    match e
    case Kill(slot, _) => Some(slot)
    case Requeue(slot) => Some(slot)
    case ReleaseClaims(slot) => Some(slot)
    case Release(slot) => Some(slot)
    case _ => None
  }

  /** At an event of the pass, the table agrees with the trace so far and the event is allowed. */
  lemma EventOfPass(me: Thread, s: State, o: R.Observer, xs: seq<JointStep>, k: nat)
    requires Agrees(me, s, o) && IsJointRun(me, s, xs) && R.Obeys(o, Events(xs))
    requires k < |xs| && xs[k].Pass?
    ensures IsJointRun(me, s, xs[..k]) && CanStep(me, TableAfter(me, s, xs[..k]), xs[k])
    ensures Agrees(me, TableAfter(me, s, xs[..k]), R.Watched(o, Events(xs[..k])))
    ensures R.Allowed(R.Watched(o, Events(xs[..k])), xs[k].event)
  {
    hide Agrees, CanStep, StepOn, IsJointRun, TableAfter, R.Obeys, R.Watched, R.Allowed;
    PrefixIsRun(me, s, xs, k);
    PrefixObeys(o, xs, k);
    PrefixObeys(o, xs, k + 1);
    JointRunAgrees(me, s, o, xs[..k]);
    assert xs[..k + 1][..k] == xs[..k];
    R.ObeysPushed(o, Events(xs[..k]), xs[k].event);
  }

  lemma EventIsExclusive(me: Thread, s: State, o: R.Observer, e: R.Event)
    requires Agrees(me, s, o) && CanStep(me, s, Pass(e)) && R.Allowed(o, e)
    ensures Locked(e).Some? ==>
              var slot := Locked(e).value;
              (me, slot) in s.owners && forall u :: (u, slot) in s.owners ==> u == me
    ensures e.Acquire? ==> TableInv(s) && e.ok == (e.slot !in Held(s))
  {
    if e.Acquire? {
      AccessStep(s, me);
    } else if Locked(e).Some? {
      HolderIsAlone(me, s, o, Locked(e).value);
    }
  }

  /** The restart is exclusive: in every interleaving of a pass, over any pending slots and any
      answers of the world, with threads that release only what they own, the pass is the only
      owner of a slot whenever it kills it, requeues its tasks, gives up its claims or is about to
      release it; and its acquire succeeds exactly if nobody holds the slot at that moment. */
  lemma RestartIsExclusive(me: Thread, s: State, order: seq<string>, world: string -> R.World,
                           xs: seq<JointStep>, k: nat)
    requires Agrees(me, s, R.FRESH_OBSERVER) && IsJointRun(me, s, xs) && Events(xs) == R.Pass(order, world)
    requires k < |xs| && xs[k].Pass?
    ensures IsJointRun(me, s, xs[..k])
    ensures var now, e := TableAfter(me, s, xs[..k]), xs[k].event;
            && (Locked(e).Some? ==>
                  var slot := Locked(e).value;
                  (me, slot) in now.owners && forall u :: (u, slot) in now.owners ==> u == me)
            && (e.Acquire? ==> TableInv(now) && e.ok == (e.slot !in Held(now)))
  {
    var o := R.FRESH_OBSERVER;
    hide Agrees, CanStep, IsJointRun, TableAfter, Events, R.Pass, R.Obeys, R.Watched, R.Allowed, Locked, Held, TableInv;
    R.PassObeys(o, order, world);
    EventOfPass(me, s, o, xs, k);
    EventIsExclusive(me, TableAfter(me, s, xs[..k]), R.Watched(o, Events(xs[..k])), xs[k].event);
  }

  /** A pass may start on the empty table, and wherever another one ended. */
  lemma PassMayStart(me: Thread)
    ensures Agrees(me, INITIAL, R.FRESH_OBSERVER)
  {
    InitialState();
  }

  lemma NextPassMayStart(me: Thread, s: State, order: seq<string>, world: string -> R.World, xs: seq<JointStep>)
    requires Agrees(me, s, R.FRESH_OBSERVER) && IsJointRun(me, s, xs) && Events(xs) == R.Pass(order, world)
    ensures Agrees(me, TableAfter(me, s, xs), R.FRESH_OBSERVER)
  {
    var o := R.FRESH_OBSERVER;
    hide IsJointRun, TableAfter, Events, R.Pass, R.Obeys, R.Watched;
    R.PassObeys(o, order, world);
    JointRunAgrees(me, s, o, xs);
  }
}
