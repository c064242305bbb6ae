/** Any number of threads using the lock table at once: lookup, insertion and flag access are
    separate atomic steps that interleave freely. */
module SlotProtocol {
  import opened Text

  type Thread = nat
  type Slot = string

  datatype Call = TryAcquire(slot: Slot) | Release(slot: Slot)

  /** Where a thread is inside a call: before the read-locked lookup, before the write-locked
      insertion, or holding a reference to a flag object. */
  datatype Pc = Idle | LookingUp(call: Call) | Inserting(call: Call) | AtFlag(call: Call, flag: nat)

  /** `heap` holds the flag objects ever created; `owners` records who acquired what. */
  datatype State = State(flags: map<Slot, nat>, heap: seq<bool>, pcs: map<Thread, Pc>, owners: set<(Thread, Slot)>)

  const INITIAL := State(map[], [], map[], {})

  datatype Step = Begin(t: Thread, call: Call) | Lookup(t: Thread) | Insert(t: Thread) | Access(t: Thread)

  function PcOf(s: State, t: Thread): Pc {
    if t in s.pcs then s.pcs[t] else Idle
  }

  predicate Enabled(s: State, step: Step) {
    match step
    case Begin(t, _) => PcOf(s, t).Idle?
    case Lookup(t) => PcOf(s, t).LookingUp?
    case Insert(t) => PcOf(s, t).Inserting?
    case Access(t) => PcOf(s, t).AtFlag? && PcOf(s, t).flag < |s.heap|
  }

  function At(s: State, t: Thread, pc: Pc): State {
    s.(pcs := s.pcs[t := pc])
  }

  function After(s: State, step: Step): State
    requires Enabled(s, step)
  {
    var t := step.t;
    match step
    case Begin(_, call) => At(s, t, LookingUp(call))
    case Lookup(_) =>
      var call := PcOf(s, t).call;
      if call.slot in s.flags then At(s, t, AtFlag(call, s.flags[call.slot])) else At(s, t, Inserting(call))
    case Insert(_) =>
      var call := PcOf(s, t).call;
      if call.slot in s.flags then At(s, t, AtFlag(call, s.flags[call.slot]))
      else At(s.(flags := s.flags[call.slot := |s.heap|], heap := s.heap + [false]), t, AtFlag(call, |s.heap|))
    case Access(_) =>
      var pc := PcOf(s, t);
      match pc.call
      case TryAcquire(slot) =>
        if s.heap[pc.flag] then At(s, t, Idle)
        else At(s.(heap := s.heap[pc.flag := true], owners := s.owners + {(t, slot)}), t, Idle)
      case Release(slot) =>
        At(s.(heap := s.heap[pc.flag := false], owners := s.owners - {(t, slot)}), t, Idle)
  }

  ghost predicate IsRun(s: State, steps: seq<Step>)
    decreases |steps|
  {
    steps == [] || (Enabled(s, steps[0]) && IsRun(After(s, steps[0]), steps[1..]))
  }

  ghost function Final(s: State, steps: seq<Step>): State
    requires IsRun(s, steps)
    decreases |steps|
  {
    if steps == [] then s else Final(After(s, steps[0]), steps[1..])
  }

  // ---------- The table, for arbitrary callers ----------

  ghost predicate TableInv(s: State) {
    && (forall a <- s.flags :: s.flags[a] < |s.heap|)
    && (forall a <- s.flags, b <- s.flags :: a != b ==> s.flags[a] != s.flags[b])
    && (forall t <- s.pcs :: s.pcs[t].AtFlag? ==>
          s.pcs[t].call.slot in s.flags && s.flags[s.pcs[t].call.slot] == s.pcs[t].flag)
  }

  ghost predicate FlagsKept(s: State, s': State) {
    forall a <- s.flags :: a in s'.flags && s'.flags[a] == s.flags[a]
  }

  /** The abstract lock table: the set of held slots. */
  ghost function Held(s: State): set<Slot>
    requires TableInv(s)
  {
    set a | a in s.flags && s.heap[s.flags[a]]
  }

  /** The atomic specification: a call's result and the held slots after it. */
  function Succeeds(held: set<Slot>, call: Call): bool {
    call.TryAcquire? ==> call.slot !in held
  }

  function HeldAfter(held: set<Slot>, call: Call): set<Slot> {
    if call.TryAcquire? then held + {call.slot} else held - {call.slot}
  }

  /** What the thread at its flag is about to return. */
  function Result(s: State, t: Thread): bool
    requires Enabled(s, Access(t))
  {
    PcOf(s, t).call.TryAcquire? ==> !s.heap[PcOf(s, t).flag]
  }

  lemma QuietStep(s: State, step: Step)
    requires TableInv(s) && Enabled(s, step) && !step.Access?
    ensures TableInv(After(s, step)) && FlagsKept(s, After(s, step)) && Held(After(s, step)) == Held(s)
  {
    var s' := After(s, step);
    if !step.Insert? {
      assert s'.flags == s.flags && s'.heap == s.heap;
    } else {
      InsertStep(s, step.t);
    }
  }

  lemma InsertStep(s: State, t: Thread)
    requires TableInv(s) && Enabled(s, Insert(t))
    ensures var s' := After(s, Insert(t)); TableInv(s') && FlagsKept(s, s') && Held(s') == Held(s)
  {
    var s', slot := After(s, Insert(t)), PcOf(s, t).call.slot;
    if slot in s.flags {
      assert s'.flags == s.flags && s'.heap == s.heap;
    } else {
      NewFlagIsClear(s, t, slot);
      assert forall a <- s.flags :: s'.heap[s'.flags[a]] == s.heap[s.flags[a]];
    }
  }

  lemma NewFlagIsClear(s: State, t: Thread, slot: Slot)
    requires TableInv(s) && Enabled(s, Insert(t)) && PcOf(s, t).call.slot == slot && slot !in s.flags
    ensures TableInv(After(s, Insert(t)))
  {
    var s' := After(s, Insert(t));
    assert forall u :: u != t && u in s'.pcs ==> u in s.pcs && s'.pcs[u] == s.pcs[u];
  }

  lemma AccessStep(s: State, t: Thread)
    requires TableInv(s) && Enabled(s, Access(t))
    ensures var s', call := After(s, Access(t)), PcOf(s, t).call;
            && TableInv(s') && FlagsKept(s, s')
            && Result(s, t) == Succeeds(Held(s), call) && Held(s') == HeldAfter(Held(s), call)
  {
    var s', pc := After(s, Access(t)), PcOf(s, t);
    assert s'.flags == s.flags && |s'.heap| == |s.heap|;
    assert forall u :: u != t && u in s'.pcs ==> u in s.pcs && s'.pcs[u] == s.pcs[u];
    assert TableInv(s');
    assert forall a <- s.flags :: a != pc.call.slot ==> s'.heap[s.flags[a]] == s.heap[s.flags[a]];
  }

  /** Every step keeps the table consistent and leaves existing flag objects in place; the
      flag access is the atomic effect of the call, and all other steps change no lock. */
  lemma StepRefines(s: State, step: Step)
    requires TableInv(s) && Enabled(s, step)
    ensures TableInv(After(s, step)) && FlagsKept(s, After(s, step))
    ensures !step.Access? ==> Held(After(s, step)) == Held(s)
    ensures step.Access? ==>
              var call := PcOf(s, step.t).call;
              Result(s, step.t) == Succeeds(Held(s), call) && Held(After(s, step)) == HeldAfter(Held(s), call)
  {
    if step.Access? {
      AccessStep(s, step.t);
    } else {
      QuietStep(s, step);
    }
  }

  datatype Completed = Completed(t: Thread, call: Call, result: bool)

  /** The calls that complete along a run, in the order of their flag accesses. */
  ghost function History(s: State, steps: seq<Step>): seq<Completed>
    requires IsRun(s, steps)
    decreases |steps|
  {
    if steps == [] then []
    else
      (if steps[0].Access? then [Completed(steps[0].t, PcOf(s, steps[0].t).call, Result(s, steps[0].t))] else [])
      + History(After(s, steps[0]), steps[1..])
  }

  /** Running completed calls one after another on the set of held slots. */
  ghost predicate IsSequential(held: set<Slot>, history: seq<Completed>, last: set<Slot>)
    decreases |history|
  {
    if history == [] then held == last
    else
      && history[0].result == Succeeds(held, history[0].call)
      && IsSequential(HeldAfter(held, history[0].call), history[1..], last)
  }

  /** Every interleaving is linearizable: the completed calls, in order, are a run of the
      atomic table with the same results; and a slot never gets a second flag object. */
  lemma {:induction false} RunsAreLinearizable(s: State, steps: seq<Step>)
    requires TableInv(s) && IsRun(s, steps)
    ensures TableInv(Final(s, steps)) && FlagsKept(s, Final(s, steps))
    ensures IsSequential(Held(s), History(s, steps), Held(Final(s, steps)))
    decreases |steps|
  {
    if steps == [] {
    } else {
      StepRefines(s, steps[0]);
      var s' := After(s, steps[0]);
      RunsAreLinearizable(s', steps[1..]);
      var rest := History(s', steps[1..]);
      if steps[0].Access? {
        var head := Completed(steps[0].t, PcOf(s, steps[0].t).call, Result(s, steps[0].t));
        assert ([head] + rest)[1..] == rest;
      } else {
        assert History(s, steps) == rest;
      }
    }
  }

  // ---------- Exclusion, when only owners release ----------

  /** A thread starts releasing a slot only while it owns it. */
  predicate OwnerReleases(s: State, step: Step) {
    step.Begin? && step.call.Release? ==> (step.t, step.call.slot) in s.owners
  }

  /** Each held slot has exactly one owner, and each owned slot is held. */
  ghost predicate OwnersMatch(s: State)
    requires TableInv(s)
  {
    && (forall p <- s.owners, q <- s.owners :: p.1 == q.1 ==> p == q)
    && (forall p <- s.owners :: p.1 in Held(s))
    && (forall a <- Held(s) :: exists p :: p in s.owners && p.1 == a)
  }

  ghost predicate ReleasersOwn(s: State) {
    forall t <- s.pcs :: !s.pcs[t].Idle? && s.pcs[t].call.Release? ==> (t, s.pcs[t].call.slot) in s.owners
  }

  ghost predicate IsDisciplined(s: State, steps: seq<Step>)
    requires IsRun(s, steps)
    decreases |steps|
  {
    steps == [] || (OwnerReleases(s, steps[0]) && IsDisciplined(After(s, steps[0]), steps[1..]))
  }

  /** The exact condition: a release keeps owners and held slots in step if and only if the
      releasing thread owns the slot, or the slot was not held at all. */
  lemma ReleaseKeepsOwnersIff(s: State, t: Thread)
    requires TableInv(s) && OwnersMatch(s)
    requires Enabled(s, Access(t)) && PcOf(s, t).call.Release?
    ensures TableInv(After(s, Access(t)))
    ensures var slot := PcOf(s, t).call.slot;
            OwnersMatch(After(s, Access(t))) <==> (t, slot) in s.owners || slot !in Held(s)
  {
    var slot, s' := PcOf(s, t).call.slot, After(s, Access(t));
    StepRefines(s, Access(t));
    assert Held(s') == Held(s) - {slot};
    if slot in Held(s) {
      var p :| p in s.owners && p.1 == slot;
      if p.0 != t {
        assert p in s'.owners;
      } else {
        ReleaseByOwner(s, t);
      }
    } else {
      assert (t, slot) !in s.owners;
      assert s'.owners == s.owners;
      assert Held(s') == Held(s);
    }
  }

  lemma ReleaseByOwner(s: State, t: Thread)
    requires TableInv(s) && OwnersMatch(s)
    requires Enabled(s, Access(t)) && PcOf(s, t).call.Release? && (t, PcOf(s, t).call.slot) in s.owners
    ensures TableInv(After(s, Access(t))) && OwnersMatch(After(s, Access(t)))
  {
    var slot, s' := PcOf(s, t).call.slot, After(s, Access(t));
    StepRefines(s, Access(t));
    forall a | a in Held(s')
      ensures exists p :: p in s'.owners && p.1 == a
    {
      var p :| p in s.owners && p.1 == a;
      assert p in s'.owners;
    }
  }

  lemma AcquireKeepsOwners(s: State, t: Thread)
    requires TableInv(s) && OwnersMatch(s)
    requires Enabled(s, Access(t)) && PcOf(s, t).call.TryAcquire?
    ensures TableInv(After(s, Access(t))) && OwnersMatch(After(s, Access(t)))
  {
    var slot, s' := PcOf(s, t).call.slot, After(s, Access(t));
    StepRefines(s, Access(t));
    assert Held(s') == Held(s) + {slot};
    forall a | a in Held(s')
      ensures exists p :: p in s'.owners && p.1 == a
    {
      if a in Held(s) {
        var p :| p in s.owners && p.1 == a;
        assert p in s'.owners;
      } else {
        assert (t, slot) in s'.owners;
      }
    }
  }

  lemma StepKeepsOwners(s: State, step: Step)
    requires TableInv(s) && OwnersMatch(s) && ReleasersOwn(s)
    requires Enabled(s, step) && OwnerReleases(s, step)
    ensures TableInv(After(s, step)) && OwnersMatch(After(s, step)) && ReleasersOwn(After(s, step))
  {
    StepRefines(s, step);
    if step.Access? {
      if PcOf(s, step.t).call.TryAcquire? {
        AcquireKeepsOwners(s, step.t);
      } else {
        ReleaseByOwner(s, step.t);
      }
    } else {
      assert Held(After(s, step)) == Held(s) && After(s, step).owners == s.owners;
    }
  }

  /** Mutual exclusion: in every interleaving in which only owners release, each slot has at
      most one owner, and exactly the held slots have one. */
  lemma {:induction false} RunsAreExclusive(s: State, steps: seq<Step>)
    requires TableInv(s) && OwnersMatch(s) && ReleasersOwn(s)
    requires IsRun(s, steps) && IsDisciplined(s, steps)
    ensures TableInv(Final(s, steps)) && OwnersMatch(Final(s, steps))
    decreases |steps|
  {
    if steps == [] {
    } else {
      StepKeepsOwners(s, steps[0]);
      RunsAreExclusive(After(s, steps[0]), steps[1..]);
    }
  }

  lemma InitialState()
    ensures TableInv(INITIAL) && OwnersMatch(INITIAL) && ReleasersOwn(INITIAL) && Held(INITIAL) == {}
  {
  }

  /** From the empty table on, two owners of one slot are the same thread. */
  lemma AtMostOneOwner(steps: seq<Step>, t: Thread, u: Thread, slot: Slot)
    requires IsRun(INITIAL, steps) && IsDisciplined(INITIAL, steps)
    requires (t, slot) in Final(INITIAL, steps).owners && (u, slot) in Final(INITIAL, steps).owners
    ensures t == u
  {
    InitialState();
    RunsAreExclusive(INITIAL, steps);
    assert (t, slot).1 == (u, slot).1;
  }

  /** A bare release by a thread that owns nothing lets two threads own one slot. */
  lemma BareReleaseBreaksExclusion(s: State, owner: Thread, other: Thread, slot: Slot)
    requires TableInv(s) && PcOf(s, other).Idle? && owner != other
    requires (owner, slot) in s.owners && slot in Held(s)
    ensures var steps := [Begin(other, Release(slot)), Lookup(other), Access(other),
                          Begin(other, TryAcquire(slot)), Lookup(other), Access(other)];
            IsRun(s, steps) && (owner, slot) in Final(s, steps).owners && (other, slot) in Final(s, steps).owners
  {
    var again := [Begin(other, TryAcquire(slot)), Lookup(other), Access(other)];
    var s1 := After(s, Begin(other, Release(slot)));
    var s2 := After(s1, Lookup(other));
    var s3 := After(s2, Access(other));
    RunOfThree(s3, again[0], again[1], again[2]);
    RunCons(s2, Access(other), again);
    RunCons(s1, Lookup(other), [Access(other)] + again);
    RunCons(s, Begin(other, Release(slot)), [Lookup(other)] + ([Access(other)] + again));
    assert [Begin(other, Release(slot))] + ([Lookup(other)] + ([Access(other)] + again))
        == [Begin(other, Release(slot)), Lookup(other), Access(other),
            Begin(other, TryAcquire(slot)), Lookup(other), Access(other)];
  }

  lemma RunCons(s: State, step: Step, rest: seq<Step>)
    requires Enabled(s, step) && IsRun(After(s, step), rest)
    ensures IsRun(s, [step] + rest) && Final(s, [step] + rest) == Final(After(s, step), rest)
  {
    assert ([step] + rest)[1..] == rest;
  }

  lemma RunOfThree(s: State, a: Step, b: Step, c: Step)
    requires Enabled(s, a) && Enabled(After(s, a), b) && Enabled(After(After(s, a), b), c)
    ensures IsRun(s, [a, b, c]) && Final(s, [a, b, c]) == After(After(After(s, a), b), c)
  {
    RunCons(After(After(s, a), b), c, []);
    RunCons(After(s, a), b, [c]);
    RunCons(s, a, [b, c]);
    assert [c] + [] == [c] && [b] + [c] == [b, c] && [a] + [b, c] == [a, b, c];
  }
}
