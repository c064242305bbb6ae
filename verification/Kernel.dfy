/** Events, effects, budgets and the bounded window of idempotency keys. */
module Kernel {
  import opened Text

  datatype EventEnvelope = EventEnvelope(
    id: string,
    kind: string,
    payload: string,
    correlationId: Option<string>,
    causationDepth: nat)

  datatype Effect =
    | EmitEvent(event: EventEnvelope)
    | Command(commandType: string, payload: string, key: Option<string>, capability: Option<string>)
    | Schedule(scheduleId: string, scheduled: EventEnvelope, afterMs: nat)
    | PersistArtifact(path: string, payload: string)
    | Log(level: string, message: string)
    | Metric(name: string, value: real)
    | Noop
  {
    function IdempotencyKey(): Option<string> {
      match this
      case Command(_, _, key, _) => key
      case _ => None
    }
  }

  const U32_RANGE: nat := 0x1_0000_0000

  type U32 = n: nat | n < U32_RANGE

  datatype RuntimeBudgets = RuntimeBudgets(
    maxCausationDepth: nat,
    maxEventsPerCorrelation: U32,
    idempotencyCacheSize: nat)

  datatype ActivationMode = Shadow | Active | Rollback

  /** The last `n` elements, or all of them. */
  function LastN<T>(s: seq<T>, n: nat): seq<T> {
    if |s| <= n then s else s[|s| - n..]
  }

  /** The keys accepted so far, after one more key is offered: it is accepted unless it is
      among the last `capacity` accepted keys. */
  function Offer(capacity: nat, accepted: seq<string>, key: string): seq<string> {
    if key in LastN(accepted, capacity) then accepted else accepted + [key]
  }

  /** Any `capacity + 1` consecutively accepted keys are pairwise distinct. */
  ghost predicate Spaced(capacity: nat, accepted: seq<string>) {
    forall i, j :: 0 <= i < j < |accepted| && j - i <= capacity ==> accepted[i] != accepted[j]
  }

  lemma OfferKeepsSpaced(capacity: nat, accepted: seq<string>, key: string)
    requires Spaced(capacity, accepted)
    ensures Spaced(capacity, Offer(capacity, accepted, key))
  {
    var last := LastN(accepted, capacity);
    forall i | 0 <= i < |accepted| && |accepted| - i <= capacity
      ensures accepted[i] in last
    {
      assert last[i - (|accepted| - |last|)] == accepted[i];
    }
  }

  class IdempotencyWindow {
    const capacity: nat
    var values: seq<string>

    /** Every key accepted since construction, in order. */
    ghost var accepted: seq<string>

    ghost predicate Valid()
      reads this
    {
      values == LastN(accepted, capacity) && Spaced(capacity, accepted)
    }

    constructor (capacity: nat)
      ensures Valid() && accepted == [] && this.capacity == capacity
    {
      this.capacity := capacity;
      values, accepted := [], [];
    }

    method InsertNew(key: string) returns (isNew: bool)
      requires Valid()
      modifies this
      ensures Valid() && accepted == Offer(capacity, old(accepted), key)
      ensures isNew == (accepted != old(accepted))
    {
      if key in values {
        return false;
      }
      OfferKeepsSpaced(capacity, accepted, key);
      accepted := accepted + [key];
      values := values + [key];
      while |values| > capacity
        invariant LastN(values, capacity) == LastN(accepted, capacity)
        invariant accepted == old(accepted) + [key]
      {
        values := values[1..];
      }
      return true;
    }
  }

  /** The window holds no key twice. */
  lemma WindowHasNoDuplicates(capacity: nat, accepted: seq<string>)
    requires Spaced(capacity, accepted)
    ensures var w := LastN(accepted, capacity); forall i, j :: 0 <= i < j < |w| ==> w[i] != w[j]
  {
  }
}
