/**
 The locker itself (locker/memory/memory.go): entries are heap objects, each critical section or
 channel operation is one method, and each method performs one step of the protocol.
 */
module KeyedLock {
  import opened Wrappers
  import opened KeyedLockProtocol

  /** An entry object: a one-slot channel and a reference count. */
  class KeyLock {
    var full: bool
    var refs: int

    constructor ()
      ensures !full && refs == 0
    {
      full, refs := false, 0;
    }
  }

  /** A granted lease; `released` is the state of its sync.Once. */
  class Lease {
    const key: string
    const entry: KeyLock
    ghost const call: nat
    var released: bool

    constructor (key: string, entry: KeyLock, ghost call: nat)
      ensures this.key == key && this.entry == entry && this.call == call && !released
    {
      this.key, this.entry, this.call, this.released := key, entry, call, false;
    }
  }

  datatype AcquireError = EmptyKey | ContextDone | NotObtained

  class Locker {
    var locks: map<string, KeyLock>
    ghost var created: set<KeyLock>
    ghost var calls: map<nat, Call<KeyLock>>

    ghost function View(): State<KeyLock>
      reads this, created
    {
      State(locks, map id | id in created :: Entry(id.full, id.refs), calls)
    }

    ghost predicate Valid()
      reads this, created
    {
      Inv(View())
    }

    constructor ()
      ensures Valid() && View() == Initial() && created == {}
    {
      locks, created, calls := map[], {}, map[];
    }

    /** The key's entry; a key that has none gets a new, unused one. */
    method FindOrCreate(ghost call: nat, key: string) returns (current: KeyLock)
      requires key in locks ==> locks[key] in created
      requires call !in calls
      modifies this`locks, this`created
      ensures created == old(created) + {current} && fresh(created - old(created))
      ensures Enabled(old(View()), Register(call, key, current)) && current == Chosen(old(View()), key, current)
      ensures View() == Found(old(View()), key, current)
    {
      if key in locks {
        current := locks[key];
      } else {
        current := new KeyLock();
        locks := locks[key := current];
        created := created + {current};
      }
    }

    /** Counts a call in on its entry, just found or created. */
    method CountIn(ghost call: nat, key: string, current: KeyLock, ghost s: State<KeyLock>)
      requires Inv(s) && Enabled(s, Register(call, key, current)) && current == Chosen(s, key, current)
      requires View() == Found(s, key, current) && current in created
      modifies this`calls, current`refs
      ensures Valid() && View() == RegisterStep(s, call, key, current)
      ensures calls == old(calls)[call := Call(key, current, Registered)]
    {
      hide Inv, RegisterStep, Enabled, Found, Chosen;
      NextKeepsInv(s, Register(call, key, current));
      RegisterMeaning(s, call, key, current);
      current.refs := current.refs + 1;
      calls := calls[call := Call(key, current, Registered)];
      assert View() == RegisterStep(s, call, key, current);
    }

    /** First critical section: find or create the entry and count the call in. */
    method RegisterCall(ghost call: nat, key: string) returns (current: KeyLock)
      requires Valid() && call !in calls
      modifies this, created
      ensures Valid() && created == old(created) + {current} && fresh(created - old(created))
      ensures Enabled(old(View()), Register(call, key, current))
      ensures View() == RegisterStep(old(View()), call, key, current)
      ensures calls == old(calls)[call := Call(key, current, Registered)]
    {
      ghost var s := View();
      InvEntriesAll(s);
      current := FindOrCreate(call, key);
      hide Inv, RegisterStep, Enabled, Found, Chosen;
      CountIn(call, key, current, s);
    }

    /** The non-blocking send. */
    method TrySendTo(ghost call: nat, current: KeyLock) returns (sent: bool)
      requires Valid() && At(View(), call, Registered) && calls[call].entry == current
      modifies this`calls, current
      ensures Valid()
      ensures View() == TrySendStep(old(View()), call)
      ensures sent == (View().calls[call].stage == Holding)
    {
      ghost var s := View();
      hide Inv;
      NextKeepsInv(s, TrySend(call));
      sent := !current.full;
      if sent {
        current.full := true;
      }
      calls := calls[call := calls[call].(stage := if sent then Holding else Failing)];
      assert View().entries == TrySendStep(s, call).entries;
      assert View() == TrySendStep(s, call);
    }

    /** The receive of a release; its precondition is only the live lease, the channel is never empty. */
    method ReceiveFrom(ghost call: nat, current: KeyLock)
      requires Valid() && At(View(), call, Holding) && calls[call].entry == current
      modifies this`calls, current
      ensures Valid() && Enabled(old(View()), Receive(call))
      ensures View() == ReceiveStep(old(View()), call)
    {
      ghost var s := View();
      hide Inv;
      InvLaws(s);
      NextKeepsInv(s, Receive(call));
      assert current.full;
      current.full := false;
      calls := calls[call := calls[call].(stage := Releasing)];
      assert View().entries == ReceiveStep(s, call).entries;
      assert View() == ReceiveStep(s, call);
    }

    /** Last critical section, of a failed try and of a release alike. */
    method DropReference(ghost call: nat, key: string, current: KeyLock)
      requires Valid() && Enabled(View(), Drop(call)) && calls[call].entry == current && calls[call].key == key
      modifies this`calls, this`locks, current
      ensures Valid()
      ensures View() == DropStep(old(View()), call)
    {
      ghost var s := View();
      hide Inv;
      NextKeepsInv(s, Drop(call));
      current.refs := current.refs - 1;
      if current.refs == 0 && key in locks && locks[key] == current {
        locks := locks - {key};
      }
      calls := calls[call := calls[call].(stage := Done)];
      assert View().entries == DropStep(s, call).entries;
      assert View() == DropStep(s, call);
    }

    /** Acquire run without interference: it obtains the lease exactly if no call holds the key. */
    method Acquire(ghost call: nat, key: string, contextDone: bool) returns (result: Result<Lease, AcquireError>)
      requires Valid() && call !in calls
      modifies this, created
      ensures Valid() && fresh(created - old(created))
      ensures key == "" ==> result == Err(EmptyKey) && View() == old(View())
      ensures key != "" && contextDone ==> result == Err(ContextDone) && View() == old(View())
      ensures key != "" && !contextDone ==>
                && (result.Ok? <==> !Held(old(View()), key)) && (result.Err? ==> result == Err(NotObtained))
                && call in calls && calls == old(calls)[call := calls[call]]
                && (result.Ok? ==>
                      fresh(result.value) && Owns(result.value) && result.value.call == call && !result.value.released)
                && (result.Err? ==> calls[call].stage == Done)
    {
      hide Inv;
      if key == "" {
        return Err(EmptyKey);
      }
      if contextDone {
        return Err(ContextDone);
      }
      var current := RegisterCall(call, key);
      RegisterKeepsHeld(old(View()), call, key, current);
      TryOutcome(View(), call);
      var sent := TrySendTo(call, current);
      if sent {
        var lease := new Lease(key, current, call);
        result := Ok(lease);
      } else {
        DropReference(call, key, current);
        result := Err(NotObtained);
      }
    }

    /** The lease stands for its call: live until released, finished afterwards. */
    ghost predicate Owns(lease: Lease)
      reads this, created, lease
    {
      && At(View(), lease.call, if lease.released then Done else Holding)
      && calls[lease.call].entry == lease.entry && calls[lease.call].key == lease.key
    }

    /** The release closure run without interference: it finishes the call and empties the channel. */
    method RunRelease(ghost call: nat, key: string, current: KeyLock)
      requires Valid() && At(View(), call, Holding) && calls[call].entry == current && calls[call].key == key
      modifies this`calls, this`locks, current
      ensures Valid() && At(View(), call, Done) && !current.full
      ensures calls == old(calls)[call := old(calls)[call].(stage := Done)]
    {
      ghost var s := View();
      ReleaseOutcome(s, call);
      hide Inv, ReceiveStep, DropStep;
      ReceiveFrom(call, current);
      DropReference(call, key, current);
    }

    /** Release run without interference; a second release of the same lease does nothing. */
    method Release(lease: Lease)
      requires Valid() && Owns(lease)
      modifies this`calls, this`locks, lease.entry, lease
      ensures Valid() && Owns(lease) && lease.released
      ensures calls == old(calls)[lease.call := old(calls)[lease.call].(stage := Done)]
      ensures old(lease.released) ==> View() == old(View())
      ensures !old(lease.released) ==> !lease.entry.full
    {
      hide Inv;
      if !lease.released {
        lease.released := true;
        RunRelease(lease.call, lease.key, lease.entry);
      }
    }
  }
}
