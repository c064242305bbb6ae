/** The per-slot dispatch lock table, as the object each single call works on. */
module SlotDispatch {
  import opened Text

  class AtomicBool {
    var value: bool

    constructor (value: bool)
      ensures this.value == value
    {
      this.value := value;
    }

    method CompareExchange(expected: bool, desired: bool) returns (ok: bool)
      modifies this
      ensures ok == (old(value) == expected)
      ensures value == if ok then desired else old(value)
    {
      ok := value == expected;
      if ok {
        value := desired;
      }
    }

    method Store(v: bool)
      modifies this
      ensures value == v
    {
      value := v;
    }
  }

  class SlotDispatchGuard {
    var flags: map<string, AtomicBool>

    /** Distinct slots have distinct flags. */
    ghost predicate Valid()
      reads this
    {
      forall s, t :: s in flags && t in flags && s != t ==> flags[s] != flags[t]
    }

    /** The slots whose flag is set. */
    ghost function Held(): set<string>
      reads this, flags.Values
    {
      set s | s in flags && flags[s].value
    }

    constructor ()
      ensures Valid() && Held() == {} && flags == map[]
    {
      flags := map[];
    }

    /** The flag of a slot, created clear on first use and never replaced. */
    method GetFlag(slotId: string) returns (flag: AtomicBool)
      requires Valid()
      modifies this
      ensures Valid() && slotId in flags && flags[slotId] == flag
      ensures flags.Keys == old(flags).Keys + {slotId}
      ensures forall s :: s in old(flags) ==> flags[s] == old(flags)[s]
      ensures slotId !in old(flags) ==> fresh(flag)
      ensures Held() == old(Held())
    {
      if slotId in flags {
        return flags[slotId];
      }
      flag := new AtomicBool(false);
      flags := flags[slotId := flag];
    }

    method TryAcquire(slotId: string) returns (ok: bool)
      requires Valid()
      modifies this, flags.Values
      ensures Valid() && (forall f <- flags.Values :: f in old(flags).Values || fresh(f))
      ensures ok == (slotId !in old(Held()))
      ensures Held() == old(Held()) + {slotId}
    {
      var flag := GetFlag(slotId);
      assert (slotId in Held()) == flag.value;
      ok := flag.CompareExchange(false, true);
    }

    method Release(slotId: string)
      requires Valid()
      modifies this, flags.Values
      ensures Valid() && (forall f <- flags.Values :: f in old(flags).Values || fresh(f))
      ensures Held() == old(Held()) - {slotId}
    {
      var flag := GetFlag(slotId);
      flag.Store(false);
    }

    method TryAcquireGuard(slotId: string) returns (guard: Option<SlotAcquireGuard>)
      requires Valid()
      modifies this, flags.Values
      ensures Valid() && (forall f <- flags.Values :: f in old(flags).Values || fresh(f))
      ensures guard.Some? == (slotId !in old(Held()))
      ensures guard.Some? ==> guard.value.dispatch == this && guard.value.slotId == slotId
      ensures Held() == old(Held()) + {slotId}
    {
      var ok := TryAcquire(slotId);
      if !ok {
        return None;
      }
      var g := new SlotAcquireGuard(this, slotId);
      guard := Some(g);
    }
  }

  class SlotAcquireGuard {
    const dispatch: SlotDispatchGuard
    const slotId: string

    constructor (dispatch: SlotDispatchGuard, slotId: string)
      ensures this.dispatch == dispatch && this.slotId == slotId
    {
      this.dispatch := dispatch;
      this.slotId := slotId;
    }

    /** Dropping the guard gives the slot back. */
    method Drop()
      requires dispatch.Valid()
      modifies dispatch, dispatch.flags.Values
      ensures dispatch.Valid() && dispatch.Held() == old(dispatch.Held()) - {slotId}
    {
      dispatch.Release(slotId);
    }
  }
}
