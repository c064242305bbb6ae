/** Restarting slots that wait for a compact restart, under the dispatch lock. */
module CompactRestart {
  import opened Text

  /** What the outside world answers about one slot during one pass: whether it is idle, whether
      someone else holds its lock, whether it is still idle then, and whether the kill works. */
  datatype World = World(idle: bool, busy: bool, stillIdle: bool, killOk: bool)

  datatype Event =
    | Acquire(slot: string, ok: bool)
    | Release(slot: string)
    | Kill(slot: string, ok: bool)
    | Requeue(slot: string)
    | ReleaseClaims(slot: string)
    | Respawn(slot: string)
    | Unpend(slot: string)

  /** The trace of one slot's turn. */
  function Turn(slot: string, w: World): seq<Event> {
    if !w.idle then []
    else if w.busy then [Acquire(slot, false)]
    else if !w.stillIdle then [Acquire(slot, true), Release(slot)]
    else if !w.killOk then [Acquire(slot, true), Kill(slot, false), Release(slot)]
    else [Acquire(slot, true), Kill(slot, true), Requeue(slot), ReleaseClaims(slot), Release(slot),
          Respawn(slot), Unpend(slot)]
  }

  function Pass(order: seq<string>, world: string -> World): seq<Event> {
    if order == [] then [] else Pass(order[..|order| - 1], world) + Turn(order[|order| - 1], world(order[|order| - 1]))
  }

  predicate Restarts(w: World) {
    w.idle && !w.busy && w.stillIdle && w.killOk
  }

  lemma PassPushed(trace: seq<Event>, order: seq<string>, slot: string, world: string -> World)
    ensures trace + Pass(order + [slot], world) == trace + Pass(order, world) + Turn(slot, world(slot))
  {
    assert (order + [slot])[..|order|] == order;
  }

  lemma PassOfNobody(trace: seq<Event>, world: string -> World)
    ensures trace + Pass([], world) == trace
  {
  }

  class Supervisor {
    var pending: set<string>
    var trace: seq<Event>

    constructor ()
      ensures pending == {} && trace == []
    {
      pending, trace := {}, [];
    }

    method Log(e: Event)
      modifies this`trace
      ensures trace == old(trace) + [e]
    {
      trace := trace + [e];
    }

    /** One pass over the slots pending at its start, in the order the set yields them. */
    method CheckPendingCompactRestarts(world: string -> World) returns (order: seq<string>)
      modifies this
      ensures |order| == |old(pending)| && forall s :: s in order <==> s in old(pending)
      ensures AreDistinct(order)
      ensures trace == old(trace) + Pass(order, world)
      ensures pending == set s | s in old(pending) && !Restarts(world(s))
    {
      hide Pass, Turn, Restarts;
      PassOfNobody(trace, world);
      order := [];
      if pending == {} {
        return;
      }
      var todo := pending;
      while todo != {}
        invariant todo <= old(pending) && |order| + |todo| == |old(pending)|
        invariant AreDistinct(order) && forall s :: s in order <==> s in old(pending) && s !in todo
        invariant trace == old(trace) + Pass(order, world)
        invariant pending == set s | s in old(pending) && (s in todo || !Restarts(world(s)))
        decreases todo
      {
        var slot :| slot in todo;
        todo := todo - {slot};
        PassPushed(old(trace), order, slot, world);
        order := order + [slot];
        RestartOne(slot, world(slot));
      }
    }

    method RestartOne(slot: string, w: World)
      modifies this
      ensures trace == old(trace) + Turn(slot, w)
      ensures pending == if Restarts(w) then old(pending) - {slot} else old(pending)
    {
      if !w.idle {
        return;
      }
      Log(Acquire(slot, !w.busy));
      if w.busy {
        return;
      }
      if !w.stillIdle {
        Log(Release(slot));
        return;
      }
      Log(Kill(slot, w.killOk));
      if !w.killOk {
        Log(Release(slot));
        return;
      }
      Log(Requeue(slot));
      Log(ReleaseClaims(slot));
      Log(Release(slot));
      Log(Respawn(slot));
      pending := pending - {slot};
      Log(Unpend(slot));
    }
  }

  // ---------- The discipline ----------

  /** What an observer of the trace remembers: the slot whose lock the pass holds, the slots killed
      successfully, and what is still owed to them. */
  datatype Observer = Observer(holding: Option<string>, killed: set<string>, owed: set<Event>)

  const FRESH_OBSERVER := Observer(None, {}, {})

  /** What a successful kill calls for. */
  function Duties(slot: string): set<Event> {
    {Requeue(slot), ReleaseClaims(slot), Respawn(slot), Unpend(slot)}
  }

  /** Acquire only when nothing is held and nothing owed; release and kill only for the slot held;
      after a successful kill, requeue and give up claims before the release, respawn and drop the
      slot from the pending set after it, in that order, and each once. */
  predicate Allowed(o: Observer, e: Event) {
    match e
    case Acquire(_, _) => o.holding == None && o.owed == {}
    case Kill(slot, _) => o.holding == Some(slot) && o.owed == {}
    case Requeue(slot) => o.holding == Some(slot) && e in o.owed
    case ReleaseClaims(slot) => o.holding == Some(slot) && e in o.owed
    case Release(slot) => o.holding == Some(slot) && o.owed <= {Respawn(slot), Unpend(slot)}
    case Respawn(slot) => o.holding == None && e in o.owed
    case Unpend(slot) => o.holding == None && o.owed == {e}
  }

  function Seen(o: Observer, e: Event): Observer {
    match e
    case Acquire(slot, ok) => if ok then o.(holding := Some(slot)) else o
    case Release(_) => o.(holding := None)
    case Kill(slot, ok) => if ok then o.(killed := o.killed + {slot}, owed := o.owed + Duties(slot)) else o
    case _ => o.(owed := o.owed - {e})
  }

  function Watched(o: Observer, trace: seq<Event>): Observer {
    if trace == [] then o else Seen(Watched(o, trace[..|trace| - 1]), trace[|trace| - 1])
  }

  predicate Obeys(o: Observer, trace: seq<Event>) {
    trace == [] || (Obeys(o, trace[..|trace| - 1]) && Allowed(Watched(o, trace[..|trace| - 1]), trace[|trace| - 1]))
  }

  lemma {:induction false} ObeysConcat(o: Observer, a: seq<Event>, b: seq<Event>)
    ensures Watched(o, a + b) == Watched(Watched(o, a), b)
    ensures Obeys(o, a + b) <==> Obeys(o, a) && Obeys(Watched(o, a), b)
  {
    if b == [] {
      assert a + b == a;
    } else {
      assert (a + b)[..|a + b| - 1] == a + b[..|b| - 1];
      ObeysConcat(o, a, b[..|b| - 1]);
    }
  }

  lemma ObeysPushed(o: Observer, a: seq<Event>, e: Event)
    ensures Watched(o, a + [e]) == Seen(Watched(o, a), e)
    ensures Obeys(o, a + [e]) <==> Obeys(o, a) && Allowed(Watched(o, a), e)
  {
    assert (a + [e])[..|a|] == a;
  }

  function Count(trace: seq<Event>, e: Event): nat {
    if trace == [] then 0 else Count(trace[..|trace| - 1], e) + (if trace[|trace| - 1] == e then 1 else 0)
  }

  lemma TurnObeys(o: Observer, slot: string, w: World)
    requires o.holding == None && o.owed == {}
    ensures Obeys(o, Turn(slot, w))
    ensures Watched(o, Turn(slot, w)) == o.(killed := if Restarts(w) then o.killed + {slot} else o.killed)
  {
    hide Watched, Obeys;
    assert Watched(o, []) == o && Obeys(o, []) by { WatchNothing(o); }
    var t1 := [Acquire(slot, !w.busy)];
    ObeysPushed(o, [], t1[0]);
    assert [] + t1 == t1;
    if w.idle && !w.busy {
      ObeysPushed(o, t1, Release(slot));
      assert !w.stillIdle ==> Turn(slot, w) == t1 + [Release(slot)];
      var t2 := t1 + [Kill(slot, w.killOk)];
      ObeysPushed(o, t1, Kill(slot, w.killOk));
      ObeysPushed(o, t2, Release(slot));
      assert w.stillIdle && !w.killOk ==> Turn(slot, w) == t2 + [Release(slot)];
      if w.stillIdle && w.killOk {
        RestartObeys(o, slot, t2);
        assert Turn(slot, w)
            == t2 + [Requeue(slot)] + [ReleaseClaims(slot)] + [Release(slot)] + [Respawn(slot)] + [Unpend(slot)];
      }
    }
  }

  lemma RestartObeys(o: Observer, slot: string, t2: seq<Event>)
    requires Obeys(o, t2) && Watched(o, t2) == Observer(Some(slot), o.killed + {slot}, Duties(slot))
    ensures var t := t2 + [Requeue(slot)] + [ReleaseClaims(slot)] + [Release(slot)] + [Respawn(slot)] + [Unpend(slot)];
            Obeys(o, t) && Watched(o, t) == Observer(None, o.killed + {slot}, {})
  {
    hide Watched, Obeys;
    var t3 := t2 + [Requeue(slot)];
    ObeysPushed(o, t2, Requeue(slot));
    assert Watched(o, t3).owed == {ReleaseClaims(slot), Respawn(slot), Unpend(slot)};
    var t4 := t3 + [ReleaseClaims(slot)];
    ObeysPushed(o, t3, ReleaseClaims(slot));
    assert Watched(o, t4).owed == {Respawn(slot), Unpend(slot)};
    var t5 := t4 + [Release(slot)];
    ObeysPushed(o, t4, Release(slot));
    var t6 := t5 + [Respawn(slot)];
    ObeysPushed(o, t5, Respawn(slot));
    assert Watched(o, t6).owed == {Unpend(slot)};
    ObeysPushed(o, t6, Unpend(slot));
  }

  lemma WatchNothing(o: Observer)
    ensures Watched(o, []) == o && Obeys(o, [])
  {
  }

  /** Restart discipline, over every pending set and every answer of the world: the pass never
      holds two locks, kills and requeues only under the lock of that slot, does for each killed
      slot all that is owed to it, ends holding and owing nothing, and has killed exactly the slots
      it takes off the pending set. */
  lemma {:induction false} PassObeys(o: Observer, order: seq<string>, world: string -> World)
    requires o.holding == None && o.owed == {}
    ensures Obeys(o, Pass(order, world))
    ensures var end := Watched(o, Pass(order, world));
            && end.holding == None && end.owed == {}
            && forall s :: s in end.killed <==> s in o.killed || (s in order && Restarts(world(s)))
  {
    hide Turn, Restarts;
    if order == [] {
    } else {
      var front, last := order[..|order| - 1], order[|order| - 1];
      PassObeys(o, front, world);
      TurnObeys(Watched(o, Pass(front, world)), last, world(last));
      ObeysConcat(o, Pass(front, world), Turn(last, world(last)));
    }
  }

  /** Each successful acquire has exactly one release, a failed one has none. */
  lemma {:induction false} ReleasesMatchAcquires(o: Observer, trace: seq<Event>, slot: string)
    requires Obeys(o, trace) && o.holding == None
    ensures Count(trace, Acquire(slot, true))
         == Count(trace, Release(slot)) + (if Watched(o, trace).holding == Some(slot) then 1 else 0)
  {
    if trace == [] {
    } else {
      ReleasesMatchAcquires(o, trace[..|trace| - 1], slot);
    }
  }

  /** Each successful kill has exactly one of each thing owed, unless it is still owed. */
  lemma {:induction false} DutiesMatchKills(o: Observer, trace: seq<Event>, slot: string, duty: Event)
    requires Obeys(o, trace) && o.owed == {} && duty in Duties(slot)
    ensures Count(trace, Kill(slot, true)) == Count(trace, duty) + (if duty in Watched(o, trace).owed then 1 else 0)
  {
    if trace == [] {
    } else {
      DutiesMatchKills(o, trace[..|trace| - 1], slot, duty);
    }
  }

  /** So in a pass every slot killed is requeued, loses its claims, is respawned and taken off the
      pending set exactly as often as it is killed. */
  lemma KilledSlotsAreServed(order: seq<string>, world: string -> World, slot: string)
    ensures var trace := Pass(order, world);
            && Count(trace, Requeue(slot)) == Count(trace, Kill(slot, true))
            && Count(trace, ReleaseClaims(slot)) == Count(trace, Kill(slot, true))
            && Count(trace, Respawn(slot)) == Count(trace, Kill(slot, true))
            && Count(trace, Unpend(slot)) == Count(trace, Kill(slot, true))
            && Count(trace, Release(slot)) == Count(trace, Acquire(slot, true))
  {
    var o, trace := FRESH_OBSERVER, Pass(order, world);
    PassObeys(o, order, world);
    hide Pass, Obeys, Watched, Count;
    DutiesMatchKills(o, trace, slot, Requeue(slot));
    DutiesMatchKills(o, trace, slot, ReleaseClaims(slot));
    DutiesMatchKills(o, trace, slot, Respawn(slot));
    DutiesMatchKills(o, trace, slot, Unpend(slot));
    ReleasesMatchAcquires(o, trace, slot);
  }

  // ---------- What is attempted ----------

  lemma {:induction false} CountConcat(a: seq<Event>, b: seq<Event>, e: Event)
    ensures Count(a + b, e) == Count(a, e) + Count(b, e)
  {
    if b == [] {
      assert a + b == a;
    } else {
      assert (a + b)[..|a + b| - 1] == a + b[..|b| - 1];
      CountConcat(a, b[..|b| - 1], e);
    }
  }

  /** A turn tries the lock once if the slot is idle, and the kill once if the slot is still idle
      under the lock; the answers are the world's. It touches no other slot. */
  lemma TurnAttempts(slot: string, w: World, s: string)
    ensures var t, mine := Turn(slot, w), s == slot;
            && Count(t, Acquire(s, true)) == (if mine && w.idle && !w.busy then 1 else 0)
            && Count(t, Acquire(s, false)) == (if mine && w.idle && w.busy then 1 else 0)
            && Count(t, Kill(s, true)) == (if mine && Restarts(w) then 1 else 0)
            && Count(t, Kill(s, false)) == (if mine && w.idle && !w.busy && w.stillIdle && !w.killOk then 1 else 0)
  {
    TurnCount(slot, w, Acquire(s, true));
    TurnCount(slot, w, Acquire(s, false));
    TurnCount(slot, w, Kill(s, true));
    TurnCount(slot, w, Kill(s, false));
    hide Count;
  }

  /** A turn has an event at most once. */
  lemma TurnCount(slot: string, w: World, e: Event)
    ensures Count(Turn(slot, w), e) == if e in Turn(slot, w) then 1 else 0
  {
    var t := Turn(slot, w);
    hide Turn, Count;
    assert forall i, j :: 0 <= i < j < |t| ==> t[i] != t[j] by { TurnIsDistinct(slot, w); }
    CountOfDistinct(t, e);
  }

  lemma TurnIsDistinct(slot: string, w: World)
    ensures forall i, j :: 0 <= i < j < |Turn(slot, w)| ==> Turn(slot, w)[i] != Turn(slot, w)[j]
  {
  }

  lemma {:induction false} CountOfDistinct(trace: seq<Event>, e: Event)
    requires forall i, j :: 0 <= i < j < |trace| ==> trace[i] != trace[j]
    ensures Count(trace, e) == if e in trace then 1 else 0
  {
    if trace == [] {
    } else {
      var front, last := trace[..|trace| - 1], trace[|trace| - 1];
      CountOfDistinct(front, e);
      assert trace == front + [last];
      assert last !in front;
    }
  }

  ghost predicate AreDistinct(order: seq<string>) {
    forall i, j :: 0 <= i < j < |order| ==> order[i] != order[j]
  }

  /** Over a pass, each pending slot gets its one turn and no other slot is touched. */
  lemma {:induction false} PassAttempts(order: seq<string>, world: string -> World, s: string)
    requires AreDistinct(order)
    ensures var t, w, mine := Pass(order, world), world(s), s in order;
            && Count(t, Acquire(s, true)) == (if mine && w.idle && !w.busy then 1 else 0)
            && Count(t, Acquire(s, false)) == (if mine && w.idle && w.busy then 1 else 0)
            && Count(t, Kill(s, true)) == (if mine && Restarts(w) then 1 else 0)
            && Count(t, Kill(s, false)) == (if mine && w.idle && !w.busy && w.stillIdle && !w.killOk then 1 else 0)
  {
    hide Turn, Restarts;
    if order == [] {
    } else {
      var front, last := order[..|order| - 1], order[|order| - 1];
      PassAttempts(front, world, s);
      TurnAttempts(last, world(last), s);
      assert order == front + [last] && last !in front;
      hide Count;
      CountConcat(Pass(front, world), Turn(last, world(last)), Acquire(s, true));
      CountConcat(Pass(front, world), Turn(last, world(last)), Acquire(s, false));
      CountConcat(Pass(front, world), Turn(last, world(last)), Kill(s, true));
      CountConcat(Pass(front, world), Turn(last, world(last)), Kill(s, false));
    }
  }
}
