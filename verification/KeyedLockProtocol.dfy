/**
 The keyed in-process lock (locker/memory/memory.go) as interleaved atomic steps.

 A call registers under the mutex, tries the entry's one-slot channel without it, and on
 failure or release drops its reference under the mutex again.  Any number of calls may be
 between any two of these steps.
 */
module KeyedLockProtocol {

  /** A lock entry: whether its one-slot channel is full, and its reference count. */
  datatype Entry = Entry(full: bool, refs: int)

  /** Where a call stands; `Holding` is a live lease. */
  datatype Stage = Registered | Holding | Failing | Releasing | Done

  /** A call remembers the entry it registered on, whatever happens to the map later. */
  datatype Call<Id> = Call(key: string, entry: Id, stage: Stage)

  datatype State<Id(==)> = State(
    locks: map<string, Id>,
    entries: map<Id, Entry>,
    calls: map<nat, Call<Id>>)

  datatype Step<Id> =
    | Register(call: nat, key: string, spare: Id)
    | TrySend(call: nat)
    | Receive(call: nat)
    | Drop(call: nat)

  function Initial<Id(==)>(): State<Id> {
    State(map[], map[], map[])
  }

  predicate At<Id(==)>(s: State<Id>, call: nat, stage: Stage) {
    call in s.calls && s.calls[call].stage == stage && s.calls[call].entry in s.entries
  }

  /** `spare` is the address a new entry would get; a receive needs a full channel. */
  predicate Enabled<Id(==)>(s: State<Id>, step: Step<Id>) {
    match step
    case Register(call, key, spare) =>
      && call !in s.calls
      && (if key in s.locks then s.locks[key] in s.entries else spare !in s.entries)
    case TrySend(call) => At(s, call, Registered)
    case Receive(call) => At(s, call, Holding) && s.entries[s.calls[call].entry].full
    case Drop(call) => At(s, call, Failing) || At(s, call, Releasing)
  }

  /** The entry a call for the key registers on: the mapped one, or a new one. */
  function Chosen<Id(==)>(s: State<Id>, key: string, spare: Id): Id {
    if key in s.locks then s.locks[key] else spare
  }

  function RegisterStep<Id(==)>(s: State<Id>, call: nat, key: string, spare: Id): State<Id>
    requires Enabled(s, Register(call, key, spare))
  {
    var chosen := Chosen(s, key, spare);
    var before := if key in s.locks then s.entries[chosen] else Entry(false, 0);
    State(s.locks[key := chosen],
          s.entries[chosen := before.(refs := before.refs + 1)],
          s.calls[call := Call(key, chosen, Registered)])
  }

  function SetStage<Id(==)>(s: State<Id>, call: nat, stage: Stage): State<Id>
    requires call in s.calls
  {
    s.(calls := s.calls[call := s.calls[call].(stage := stage)])
  }

  function TrySendStep<Id(==)>(s: State<Id>, call: nat): State<Id>
    requires Enabled(s, TrySend(call))
  {
    var id := s.calls[call].entry;
    if s.entries[id].full then SetStage(s, call, Failing)
    else SetStage(s.(entries := s.entries[id := s.entries[id].(full := true)]), call, Holding)
  }

  function ReceiveStep<Id(==)>(s: State<Id>, call: nat): State<Id>
    requires Enabled(s, Receive(call))
  {
    var id := s.calls[call].entry;
    SetStage(s.(entries := s.entries[id := s.entries[id].(full := false)]), call, Releasing)
  }

  function DropStep<Id(==)>(s: State<Id>, call: nat): State<Id>
    requires Enabled(s, Drop(call))
  {
    var id, key := s.calls[call].entry, s.calls[call].key;
    var after := s.entries[id].(refs := s.entries[id].refs - 1);
    var locks := if after.refs == 0 && key in s.locks && s.locks[key] == id then s.locks - {key} else s.locks;
    SetStage(State(locks, s.entries[id := after], s.calls), call, Done)
  }

  function Next<Id(==)>(s: State<Id>, step: Step<Id>): State<Id>
    requires Enabled(s, step)
  {
    match step
    case Register(call, key, spare) => RegisterStep(s, call, key, spare)
    case TrySend(call) => TrySendStep(s, call)
    case Receive(call) => ReceiveStep(s, call)
    case Drop(call) => DropStep(s, call)
  }

  /** An interleaving: every step is enabled where it happens. */
  predicate Interleaving<Id(==)>(s: State<Id>, steps: seq<Step<Id>>)
    decreases |steps|
  {
    steps == [] || (Enabled(s, steps[0]) && Interleaving(Next(s, steps[0]), steps[1..]))
  }

  function After<Id(==)>(s: State<Id>, steps: seq<Step<Id>>): State<Id>
    requires Interleaving(s, steps)
    decreases |steps|
  {
    if steps == [] then s else After(Next(s, steps[0]), steps[1..])
  }

  // ---------- the invariant ----------

  /** Calls that hold a reference to an entry: registered and not yet dropped. */
  function Users<Id(==)>(s: State<Id>, id: Id): set<nat> {
    set call | call in s.calls && s.calls[call].entry == id && s.calls[call].stage != Done
  }

  /** Calls with a live lease on an entry. */
  function Holders<Id(==)>(s: State<Id>, id: Id): set<nat> {
    set call | call in s.calls && s.calls[call].entry == id && s.calls[call].stage == Holding
  }

  /** Every call that still holds a reference finds its own entry in the map; map entries are in use and unshared. */
  predicate MapInv<Id(==)>(s: State<Id>) {
    && (forall call :: call in s.calls ==> s.calls[call].entry in s.entries)
    && (forall call :: call in s.calls && s.calls[call].stage != Done ==>
          && s.calls[call].key in s.locks
          && s.locks[s.calls[call].key] == s.calls[call].entry)
    && (forall key :: key in s.locks ==> s.locks[key] in s.entries && s.entries[s.locks[key]].refs > 0)
    && (forall a, b :: a in s.locks && b in s.locks && s.locks[a] == s.locks[b] ==> a == b)
  }

  /** Reference counts and channels count exactly the calls they stand for. */
  ghost predicate CountInv<Id>(s: State<Id>, id: Id)
    requires id in s.entries
  {
    && s.entries[id].refs == |Users(s, id)|
    && |Holders(s, id)| == (if s.entries[id].full then 1 else 0)
  }

  ghost predicate Inv<Id>(s: State<Id>) {
    MapInv(s) && forall id :: id in s.entries ==> CountInv(s, id)
  }

  predicate LastUser<Id(==)>(s: State<Id>, call: nat)
    requires call in s.calls
  {
    forall other :: other in s.calls && s.calls[other].entry == s.calls[call].entry && s.calls[other].stage != Done ==>
      other == call
  }

  /** With one reference left there is one user left. */
  lemma SoleUser<Id>(s: State<Id>, call: nat, other: nat)
    requires MapInv(s) && Enabled(s, Drop(call))
    requires CountInv(s, s.calls[call].entry) && s.entries[s.calls[call].entry].refs == 1
    requires other in s.calls && s.calls[other].entry == s.calls[call].entry && s.calls[other].stage != Done
    ensures other == call
  {
    var users := Users(s, s.calls[call].entry);
    assert call in users && other in users;
    assert |users - {call}| == 0;
    assert users - {call} == {};
  }

  lemma NextKeepsMapInv<Id>(s: State<Id>, step: Step<Id>)
    requires MapInv(s) && Enabled(s, step)
    requires step.Drop? ==> CountInv(s, s.calls[step.call].entry)
    ensures MapInv(Next(s, step))
  {
    if step.Drop? {
      var id := s.calls[step.call].entry;
      if s.entries[id].refs == 1 {
        forall other | other in s.calls && s.calls[other].entry == id && s.calls[other].stage != Done
          ensures other == step.call
        {
          SoleUser(s, step.call, other);
        }
      }
      DropKeepsMapInv(s, step.call);
    }
  }

  lemma DropKeepsMapInv<Id>(s: State<Id>, call: nat)
    requires MapInv(s) && Enabled(s, Drop(call))
    requires s.entries[s.calls[call].entry].refs == 1 ==> LastUser(s, call)
    ensures MapInv(DropStep(s, call))
  {
    var s' := DropStep(s, call);
    var key := s.calls[call].key;
    assert s.locks[key] == s.calls[call].entry;
    forall other | other in s'.calls && s'.calls[other].stage != Done
      ensures s'.calls[other].key in s'.locks && s'.locks[s'.calls[other].key] == s'.calls[other].entry
    {
      assert other != call;
      assert s.calls[other].key == key ==> s.calls[other].entry == s.calls[call].entry;
    }
  }

  /** How a step moves its call among the users of the entries. */
  lemma NextMovesUsers<Id>(s: State<Id>, step: Step<Id>, id: Id)
    requires MapInv(s) && Enabled(s, step)
    ensures Users(Next(s, step), id) ==
              match step
              case Register(call, key, spare) => if id == Chosen(s, key, spare) then Users(s, id) + {call} else Users(s, id)
              case Drop(call) => if id == s.calls[call].entry then Users(s, id) - {call} else Users(s, id)
              case _ => Users(s, id)
  {
  }

  /** How a step moves its call among the holders of the entries. */
  lemma NextMovesHolders<Id>(s: State<Id>, step: Step<Id>, id: Id)
    requires MapInv(s) && Enabled(s, step)
    ensures Holders(Next(s, step), id) ==
              match step
              case TrySend(call) =>
                if id == s.calls[call].entry && !s.entries[id].full then Holders(s, id) + {call} else Holders(s, id)
              case Receive(call) => if id == s.calls[call].entry then Holders(s, id) - {call} else Holders(s, id)
              case _ => Holders(s, id)
  {
  }

  lemma NextKeepsCounts<Id>(s: State<Id>, step: Step<Id>, id: Id)
    requires MapInv(s) && Enabled(s, step) && id in Next(s, step).entries
    requires id in s.entries ==> CountInv(s, id)
    ensures CountInv(Next(s, step), id)
  {
    NextMovesUsers(s, step, id);
    NextMovesHolders(s, step, id);
    if id !in s.entries { assert Users(s, id) == {} && Holders(s, id) == {}; }
    match step
    case Register(call, key, spare) =>
      assert call !in Users(s, id);
    case TrySend(call) =>
      assert call !in Holders(s, id);
    case Receive(call) =>
      assert id == s.calls[call].entry ==> call in Holders(s, id);
    case Drop(call) =>
      assert id == s.calls[call].entry ==> call in Users(s, id);
  }

  lemma NextKeepsInv<Id>(s: State<Id>, step: Step<Id>)
    requires Inv(s) && Enabled(s, step)
    ensures Inv(Next(s, step))
  {
    NextKeepsMapInv(s, step);
    forall id | id in Next(s, step).entries ensures CountInv(Next(s, step), id) {
      NextKeepsCounts(s, step, id);
    }
  }

  lemma {:induction false} ReachableInv<Id>(s: State<Id>, steps: seq<Step<Id>>)
    requires Inv(s) && Interleaving(s, steps)
    ensures Inv(After(s, steps))
    decreases |steps|
  {
    if steps == [] {
    } else {
      NextKeepsInv(s, steps[0]);
      ReachableInv(Next(s, steps[0]), steps[1..]);
    }
  }

  // ---------- what every interleaving guarantees ----------

  /** At most one live lease per key. */
  ghost predicate MutualExclusion<Id>(s: State<Id>) {
    forall a, b ::
      At(s, a, Holding) && At(s, b, Holding) && s.calls[a].key == s.calls[b].key ==> a == b
  }

  /** An entry's count is the number of calls between register and drop on it. */
  ghost predicate RefsExact<Id>(s: State<Id>) {
    forall id :: id in s.entries ==> s.entries[id].refs == |Users(s, id)|
  }

  /** An entry in use is the mapped one of its users' key: no delete ever orphans it. */
  ghost predicate NeverOrphaned<Id>(s: State<Id>) {
    forall call :: call in s.calls && s.calls[call].stage != Done ==>
      s.calls[call].key in s.locks && s.locks[s.calls[call].key] == s.calls[call].entry
  }

  /** The map holds exactly the keys some unfinished call works on. */
  ghost predicate MapExact<Id>(s: State<Id>) {
    forall key :: key in s.locks <==> exists call :: call in s.calls && s.calls[call].stage != Done && s.calls[call].key == key
  }

  /** The holder's receive always finds the channel full. */
  ghost predicate ReceiveNeverBlocks<Id>(s: State<Id>) {
    forall call :: At(s, call, Holding) ==> Enabled(s, Receive(call))
  }

  /** A failed try means that some other call holds the key at that moment, and only then does a try fail. */
  ghost predicate HonestRefusal<Id>(s: State<Id>) {
    forall call :: At(s, call, Registered) ==>
      (TrySendStep(s, call).calls[call].stage == Failing <==>
       exists other :: other in s.calls && s.calls[other].stage == Holding && s.calls[other].key == s.calls[call].key)
  }

  lemma InvSole<Id>(s: State<Id>, a: nat, b: nat)
    requires Inv(s) && a in s.calls && b in s.calls && s.calls[a].stage == s.calls[b].stage == Holding
    requires s.calls[a].entry == s.calls[b].entry
    ensures a == b && s.entries[s.calls[a].entry].full
  {
    var id := s.calls[a].entry;
    assert CountInv(s, id);
    assert a in Holders(s, id) && b in Holders(s, id);
    assert |Holders(s, id) - {a}| == 0;
    assert Holders(s, id) - {a} == {};
  }

  lemma InvLaws<Id>(s: State<Id>)
    requires Inv(s)
    ensures MutualExclusion(s) && RefsExact(s) && NeverOrphaned(s) && ReceiveNeverBlocks(s)
  {
    forall a, b | At(s, a, Holding) && At(s, b, Holding) && s.calls[a].key == s.calls[b].key ensures a == b
    {
      InvSole(s, a, b);
    }
    forall call | At(s, call, Holding) ensures Enabled(s, Receive(call)) {
      InvSole(s, call, call);
    }
    assert forall id :: id in s.entries ==> CountInv(s, id);
  }

  lemma InvMapExact<Id>(s: State<Id>)
    requires Inv(s)
    ensures MapExact(s)
  {
    forall key | key in s.locks
      ensures exists call :: call in s.calls && s.calls[call].stage != Done && s.calls[call].key == key
    {
      var id := s.locks[key];
      assert CountInv(s, id);
      assert Users(s, id) != {};
      var call :| call in Users(s, id);
      assert s.locks[s.calls[call].key] == id;
    }
  }

  lemma InvHonest<Id>(s: State<Id>)
    requires Inv(s)
    ensures HonestRefusal(s)
  {
    forall call | At(s, call, Registered)
      ensures TrySendStep(s, call).calls[call].stage == Failing <==>
              exists other :: other in s.calls && s.calls[other].stage == Holding && s.calls[other].key == s.calls[call].key
    {
      var id := s.calls[call].entry;
      assert CountInv(s, id);
      if s.entries[id].full {
        assert Holders(s, id) != {};
        var other :| other in Holders(s, id);
        assert s.calls[other].key == s.calls[call].key;
      }
      forall other | other in s.calls && s.calls[other].stage == Holding && s.calls[other].key == s.calls[call].key
        ensures s.entries[id].full
      {
        InvSole(s, other, other);
      }
    }
  }

  /** All promises together, in every state of every interleaving from the empty locker. */
  lemma EveryInterleaving<Id>(steps: seq<Step<Id>>)
    requires Interleaving(Initial(), steps)
    ensures var s := After(Initial(), steps);
            && MutualExclusion(s) && RefsExact(s) && NeverOrphaned(s)
            && MapExact(s) && ReceiveNeverBlocks(s) && HonestRefusal(s)
            && ((forall call :: call in s.calls ==> s.calls[call].stage == Done) ==> s.locks == map[])
  {
    ReachableInv(Initial(), steps);
    var s := After(Initial(), steps);
    InvLaws(s);
    InvMapExact(s);
    InvHonest(s);
  }

  ghost predicate Held<Id>(s: State<Id>, key: string) {
    exists call :: At(s, call, Holding) && s.calls[call].key == key
  }

  /** A try without interference: it fails exactly if the key is held. */
  lemma TryOutcome<Id>(s: State<Id>, call: nat)
    requires Inv(s) && At(s, call, Registered)
    ensures var tried := TrySendStep(s, call);
            && At(tried, call, if Held(s, s.calls[call].key) then Failing else Holding)
            && tried.calls == s.calls[call := s.calls[call].(stage := tried.calls[call].stage)]
  {
    hide Inv;
    InvHonest(s);
    InvEntriesAll(s);
    var key := s.calls[call].key;
    if Held(s, key) {
      var other :| At(s, other, Holding) && s.calls[other].key == key;
    }
    assert forall other :: other in s.calls && s.calls[other].stage == Holding ==> At(s, other, Holding);
  }

  /** Halfway through registering: the key's entry is found or created. */
  function Found<Id(==)>(s: State<Id>, key: string, id: Id): State<Id> {
    State(s.locks[key := id], if key in s.locks then s.entries else s.entries[id := Entry(false, 0)], s.calls)
  }

  /** Counting the call in then completes the register step. */
  lemma RegisterMeaning<Id>(s: State<Id>, call: nat, key: string, id: Id)
    requires Enabled(s, Register(call, key, id)) && id == Chosen(s, key, id)
    ensures var step, found := Register(call, key, id), Found(s, key, id);
            && id in found.entries && Next(s, step) == RegisterStep(s, call, key, id)
            && RegisterStep(s, call, key, id)
               == State(found.locks, found.entries[id := Entry(found.entries[id].full, found.entries[id].refs + 1)],
                        found.calls[call := Call(key, id, Registered)])
  {
  }

  /** The receive half of a release: it is possible, empties the channel and leaves the drop. */
  lemma ReceiveOutcome<Id>(s: State<Id>, call: nat)
    requires Inv(s) && At(s, call, Holding)
    ensures Enabled(s, Receive(call))
    ensures var received := ReceiveStep(s, call);
            && At(received, call, Releasing) && Enabled(received, Drop(call))
            && received.calls == s.calls[call := s.calls[call].(stage := Releasing)]
            && received.entries.Keys == s.entries.Keys
            && !received.entries[s.calls[call].entry].full
  {
    InvLaws(s);
    hide Inv;
  }

  /** The drop half: the call is finished and no channel changes. */
  lemma DropOutcome<Id>(s: State<Id>, call: nat)
    requires Enabled(s, Drop(call))
    ensures var dropped := DropStep(s, call);
            && dropped.calls == s.calls[call := s.calls[call].(stage := Done)]
            && dropped.entries.Keys == s.entries.Keys
            && forall id :: id in s.entries ==> dropped.entries[id].full == s.entries[id].full
  {
  }

  /** Releasing without interference: the call is finished and the channel empty. */
  lemma ReleaseOutcome<Id>(s: State<Id>, call: nat)
    requires Inv(s)
    ensures At(s, call, Holding) ==>
              && Enabled(s, Receive(call))
              && var received := ReceiveStep(s, call);
                 && Enabled(received, Drop(call))
                 && var dropped := DropStep(received, call);
                    && dropped.calls == s.calls[call := s.calls[call].(stage := Done)]
                    && dropped.entries.Keys == s.entries.Keys
                    && !dropped.entries[s.calls[call].entry].full
  {
    if At(s, call, Holding) {
      hide Inv, ReceiveStep, DropStep;
      ReceiveOutcome(s, call);
      DropOutcome(ReceiveStep(s, call), call);
    }
  }

  /** Registering makes no key held or free. */
  lemma RegisterKeepsHeld<Id>(s: State<Id>, call: nat, key: string, spare: Id)
    requires Inv(s) && Enabled(s, Register(call, key, spare))
    ensures Held(s, key) <==> Held(RegisterStep(s, call, key, spare), key)
  {
    var registered := RegisterStep(s, call, key, spare);
    InvEntriesAll(s);
    hide Inv;
    if Held(s, key) {
      var other :| At(s, other, Holding) && s.calls[other].key == key;
      assert registered.calls[other] == s.calls[other];
      assert At(registered, other, Holding);
    }
    if Held(registered, key) {
      var other :| At(registered, other, Holding) && registered.calls[other].key == key;
      assert s.calls[other] == registered.calls[other];
      assert At(s, other, Holding);
    }
  }

  lemma InvEntriesAll<Id>(s: State<Id>)
    requires Inv(s)
    ensures forall call :: call in s.calls ==> s.calls[call].entry in s.entries
    ensures forall key :: key in s.locks ==> s.locks[key] in s.entries
  {
  }
}
