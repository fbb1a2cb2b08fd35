/**
 Rotation grace under interleaving (auth/data/user_token.go): as long as no rotation of a session overlaps
 another one, the cache answers for the session's tokens as if the calls had come one after the other.
 */
module SessionInterleavedRuns {
  import opened Wrappers
  import opened MemoryCache
  import opened SessionTokens
  import opened SessionProtocol
  import opened SessionMarkers
  import opened SessionOverlap
  import R = SessionRuns

  /** What the saves so far have made of a session, and the calls that had read before the last one. */
  datatype Trace = Trace(life: Option<R.Life>, stale: set<nat>)

  const NO_TRACE := Trace(None, {})

  /** The tokens of a record just created. */
  function Begun(lives: Lives, record: TokenSession): R.Life {
    R.Life([R.Issue(record.accessToken, record.accessExpiresAt - lives.access)],
           R.Issue(record.refreshToken, record.refreshExpiresAt - lives.refresh))
  }

  function Follow(lives: Lives, s: State, step: Step, trace: Trace, userID: int, sessionID: string): Trace
    requires Enabled(s, step)
  {
    if !Saves(s, step, userID, sessionID) then trace
    else
      var t, stale := s.threads[step.id], Readers(Next(lives, s, step), userID, sessionID);
      if t.LoginSave? then Trace(Some(Begun(lives, t.record)), stale)
      else if trace.life.None? then Trace(None, stale)
      else Trace(Some(R.Renew(trace.life.value, t.kind, R.Issue(step.tokens.0, step.now))), stale)
  }

  /** The step is a rotation that had read the session's record before the last save of it. */
  predicate Overlaps(s: State, step: Step, trace: Trace, userID: int, sessionID: string) {
    && step.Advance? && step.id in s.threads && AtSave(s.threads[step.id], userID, sessionID)
    && step.id in trace.stale
  }

  predicate NoOverlap(lives: Lives, s: State, steps: seq<Step>, trace: Trace, userID: int, sessionID: string)
    requires Interleaving(lives, s, steps)
    decreases |steps|
  {
    steps == [] ||
    (!Overlaps(s, steps[0], trace, userID, sessionID)
     && NoOverlap(lives, Next(lives, s, steps[0]), steps[1..], Follow(lives, s, steps[0], trace, userID, sessionID),
                  userID, sessionID))
  }

  function TraceOf(lives: Lives, s: State, steps: seq<Step>, trace: Trace, userID: int, sessionID: string): Trace
    requires Interleaving(lives, s, steps)
    decreases |steps|
  {
    if steps == [] then trace
    else TraceOf(lives, Next(lives, s, steps[0]), steps[1..], Follow(lives, s, steps[0], trace, userID, sessionID),
                 userID, sessionID)
  }

  /** The stored record is the one the saves describe; before the first one there is none, and none was read. */
  ghost predicate Traced(lives: Lives, s: State, trace: Trace, userID: int, sessionID: string) {
    && HashesStay(s.cache)
    && match trace.life
       case None => !IsStored(s.cache, userID, sessionID) && Readers(s, userID, sessionID) == {}
       case Some(life) =>
         && life.access != [] && R.Newest(life).token in s.issued && R.Newest(life).token != ""
         && Current(s, userID, sessionID, R.RecordOf(lives, sessionID, life), trace.stale)
  }

  lemma NothingYet(lives: Lives, s: State, step: Step, userID: int, sessionID: string)
    requires Own(s) && HashesStay(s.cache) && Enabled(s, step) && !Saves(s, step, userID, sessionID)
    requires !IsStored(s.cache, userID, sessionID) && Readers(s, userID, sessionID) == {}
    ensures var s' := Next(lives, s, step);
            !IsStored(s'.cache, userID, sessionID) && Readers(s', userID, sessionID) == {}
  {
    var some, other := LOGIN, LOGIN.(accessToken := "z");
    assert Current(s, userID, sessionID, some, {}) && Current(s, userID, sessionID, other, {}) by {
      assert forall id :: id in s.threads ==> id !in Readers(s, userID, sessionID);
    }
    NextKeepsCurrent(lives, s, step, userID, sessionID, some, {});
    NextKeepsCurrent(lives, s, step, userID, sessionID, other, {});
    var s' := Next(lives, s, step);
    hide Next, Own;
    assert forall id :: id in s'.threads ==> !AtSave(s'.threads[id], userID, sessionID);
  }

  /** The end of a login makes its record the current one. */
  lemma LoginMakesCurrent(lives: Lives, s: State, step: Step, userID: int, sessionID: string)
    requires Own(s) && HashesStay(s.cache) && Enabled(s, step) && step.Advance?
    requires s.threads[step.id].LoginSave? && Saves(s, step, userID, sessionID)
    ensures var s', record := Next(lives, s, step), s.threads[step.id].record;
            Current(s', userID, sessionID, record, Readers(s', userID, sessionID)) && s'.issued == s.issued
  {
    var t, s', index := s.threads[step.id], Next(lives, s, step), IndexKey(userID);
    assert s'.cache == SetField(s.cache, index, sessionID, t.record, step.now);
    assert s'.threads == s.threads[step.id := Finished];
    hide Own, Next;
    assert HashesStay(s'.cache);
    assert s'.cache.mapItems[index].fields[sessionID] == t.record;
    assert forall id :: id in s'.threads && AtSave(s'.threads[id], userID, sessionID) ==> id in Readers(s', userID, sessionID);
  }

  /** A record as a login creates it is the one its tokens describe. */
  predicate IsFirst(lives: Lives, record: TokenSession) {
    record == R.RecordOf(lives, record.sessionID, Begun(lives, record)) && record.accessToken != ""
  }

  ghost predicate FirstRecords(lives: Lives, s: State) {
    forall id :: id in s.threads && s.threads[id].LoginSave? ==> IsFirst(lives, s.threads[id].record)
  }

  lemma NextKeepsFirst(lives: Lives, s: State, step: Step)
    requires FirstRecords(lives, s) && Enabled(s, step)
    ensures FirstRecords(lives, Next(lives, s, step))
  {
    var s' := Next(lives, s, step);
    forall id | id in s'.threads && s'.threads[id].LoginSave?
      ensures IsFirst(lives, s'.threads[id].record)
    {
      if step.id != id {
        hide AdvanceThread;
        assert id in s.threads && s'.threads[id] == s.threads[id] by {
          MovesOnlyItself(lives, s, step, id);
        }
        assert IsFirst(lives, s.threads[id].record);
      } else {
        BeginsFirst(lives, s, step);
      }
    }
  }

  lemma MovesOnlyItself(lives: Lives, s: State, step: Step, id: nat)
    requires Enabled(s, step) && id in Next(lives, s, step).threads && step.id != id
    ensures id in s.threads && Next(lives, s, step).threads[id] == s.threads[id]
  {
  }

  lemma BeginsFirst(lives: Lives, s: State, step: Step)
    requires Enabled(s, step) && Next(lives, s, step).threads[step.id].LoginSave?
    ensures IsFirst(lives, Next(lives, s, step).threads[step.id].record)
  {
    hide Accepts, SetStr, SetField, DelField, ExpireStr, DelStr, Touched, TouchedHash, RotatedRecord;
  }

  lemma RotationFollows(lives: Lives, s: State, step: Step, trace: Trace, userID: int, sessionID: string)
    requires Own(s) && Traced(lives, s, trace, userID, sessionID) && Enabled(s, step) && step.Advance?
    requires AtSave(s.threads[step.id], userID, sessionID) && !Overlaps(s, step, trace, userID, sessionID)
    ensures Traced(lives, Next(lives, s, step), Follow(lives, s, step, trace, userID, sessionID), userID, sessionID)
  {
    assert step.id in Readers(s, userID, sessionID);
    var life := trace.life.value;
    SaveMakesCurrent(lives, s, step, userID, sessionID);
    R.RecordRotates(lives, sessionID, life, s.threads[step.id].kind, step.tokens.0, step.now);
    hide Own, Next, RotatedRecord, R.RecordOf;
  }

  lemma NextFollows(lives: Lives, s: State, step: Step, trace: Trace, userID: int, sessionID: string)
    requires Own(s) && FirstRecords(lives, s) && Traced(lives, s, trace, userID, sessionID) && Enabled(s, step)
    requires !Overlaps(s, step, trace, userID, sessionID)
    ensures Traced(lives, Next(lives, s, step), Follow(lives, s, step, trace, userID, sessionID), userID, sessionID)
  {
    hide Own, Next, R.RecordOf, Current;
    NextKeepsHashes(lives, s, step);
    NextIssues(lives, s, step);
    if !Saves(s, step, userID, sessionID) {
      match trace.life
      case None => NothingYet(lives, s, step, userID, sessionID);
      case Some(life) =>
        NextKeepsCurrent(lives, s, step, userID, sessionID, R.RecordOf(lives, sessionID, life), trace.stale);
    } else if s.threads[step.id].LoginSave? {
      LoginFollows(lives, s, step, userID, sessionID);
    } else {
      RotationFollows(lives, s, step, trace, userID, sessionID);
    }
  }

  lemma LoginFollows(lives: Lives, s: State, step: Step, userID: int, sessionID: string)
    requires Own(s) && HashesStay(s.cache) && FirstRecords(lives, s) && Enabled(s, step) && step.Advance?
    requires s.threads[step.id].LoginSave? && Saves(s, step, userID, sessionID)
    ensures var s' := Next(lives, s, step);
            Traced(lives, s', Trace(Some(Begun(lives, s.threads[step.id].record)), Readers(s', userID, sessionID)),
                   userID, sessionID)
  {
    LoginMakesCurrent(lives, s, step, userID, sessionID);
    NextKeepsHashes(lives, s, step);
    assert OwnThread(s.issued, s.threads[step.id]);
    hide Own, Next, Current;
  }

  lemma {:induction false} RunFollows(lives: Lives, s: State, steps: seq<Step>, trace: Trace, userID: int,
                                      sessionID: string)
    requires Own(s) && FirstRecords(lives, s) && Traced(lives, s, trace, userID, sessionID)
    requires Interleaving(lives, s, steps) && NoOverlap(lives, s, steps, trace, userID, sessionID)
    ensures Own(After(lives, s, steps))
    ensures Traced(lives, After(lives, s, steps), TraceOf(lives, s, steps, trace, userID, sessionID), userID, sessionID)
    decreases |steps|
  {
    hide Own, FirstRecords, Traced, Enabled, Next, Follow, Overlaps;
    if steps == [] {
    } else {
      NextFollows(lives, s, steps[0], trace, userID, sessionID);
      NextKeepsFirst(lives, s, steps[0]);
      NextKeepsOwn(lives, s, steps[0]);
      RunFollows(lives, Next(lives, s, steps[0]), steps[1..], Follow(lives, s, steps[0], trace, userID, sessionID),
                 userID, sessionID);
    }
  }

  /** Without its record stored, no session accepts the token. */
  lemma NotListed(s: State, userID: int, sessionID: string, kind: Kind, token: string, t: int)
    requires Own(s) && Owned(s.issued, token, OfSession(userID, sessionID)) && !IsStored(s.cache, userID, sessionID)
    ensures !SessionAccepts(s.cache, userID, kind, token, t) && !Valid(s.cache, userID, kind, token, t)
  {
    NotPlain(s, userID, sessionID, kind, token, t);
    var live := Sessions(s.cache, userID, t);
    forall sid | sid in live ensures !Accepts(live[sid], token, kind, t) {
      assert OwnRecords(s.issued, userID, s.cache.mapItems[IndexKey(userID)].fields);
      assert OwnRecord(s.issued, userID, sid, live[sid]);
      NotPlain(s, userID, sessionID, kind, token, t);
    }
  }

  /**
   Rotation grace in every interleaving without overlapping rotations of the session, as a function of the
   steps alone: a token issued to it validates exactly while the marker is there and before its deadline, the
   record is stored, and the token is the newest access token, its predecessor in grace, or the newest refresh
   token.
   */
  lemma InterleavedGrace(lives: Lives, steps: seq<Step>, userID: int, sessionID: string, kind: Kind, token: string,
                         t: int)
    requires Interleaving(lives, INITIAL, steps) && NoOverlap(lives, INITIAL, steps, NO_TRACE, userID, sessionID)
    requires Owned(After(lives, INITIAL, steps).issued, token, OfSession(userID, sessionID))
    ensures var life := TraceOf(lives, INITIAL, steps, NO_TRACE, userID, sessionID).life;
            var m := MarkOf(lives, INITIAL, steps, NO_MARK, userID, sessionID);
            Valid(After(lives, INITIAL, steps).cache, userID, kind, token, t) <==>
            && m.present && !Past(m.due, t) && m.stored
            && life.Some? && life.value.access != [] && R.Grants(lives, life.value, kind, token, t)
  {
    assert Readers(INITIAL, userID, sessionID) == {};
    RunFollows(lives, INITIAL, steps, NO_TRACE, userID, sessionID);
    MarkerLaw(lives, steps, userID, sessionID);
    var s, life := After(lives, INITIAL, steps), TraceOf(lives, INITIAL, steps, NO_TRACE, userID, sessionID).life;
    hide After, Interleaving, NoOverlap, TraceOf, MarkOf, R.RecordOf, R.Grants, Own, Valid, Sessions;
    if IsStored(s.cache, userID, sessionID) {
      SessionToken(s, userID, sessionID, kind, token, t);
      NotPlain(s, userID, sessionID, kind, token, t);
      R.RecordGrants(lives, sessionID, life.value, kind, token, t);
    } else {
      NotListed(s, userID, sessionID, kind, token, t);
    }
  }

  /**
   If moreover the call that saved last has also set the marker last, the marker outlives all tokens of the
   session: as long as marker and record are there, the saves alone decide.
   */
  lemma SettledGrace(lives: Lives, steps: seq<Step>, userID: int, sessionID: string, kind: Kind, token: string, t: int)
    requires Interleaving(lives, INITIAL, steps) && NoOverlap(lives, INITIAL, steps, NO_TRACE, userID, sessionID)
    requires Owned(After(lives, INITIAL, steps).issued, token, OfSession(userID, sessionID))
    requires var m := MarkOf(lives, INITIAL, steps, NO_MARK, userID, sessionID); SameCall(m) && m.present && m.stored
    requires var life := TraceOf(lives, INITIAL, steps, NO_TRACE, userID, sessionID).life;
             life.Some? ==> R.InOrder(life.value.access)
    ensures var life := TraceOf(lives, INITIAL, steps, NO_TRACE, userID, sessionID).life;
            && life.Some? && life.value.access != []
            && (Valid(After(lives, INITIAL, steps).cache, userID, kind, token, t) <==>
                R.Grants(lives, life.value, kind, token, t))
  {
    assert Readers(INITIAL, userID, sessionID) == {};
    RunFollows(lives, INITIAL, steps, NO_TRACE, userID, sessionID);
    MarkerLaw(lives, steps, userID, sessionID);
    InterleavedGrace(lives, steps, userID, sessionID, kind, token, t);
    var s, life := After(lives, INITIAL, steps), TraceOf(lives, INITIAL, steps, NO_TRACE, userID, sessionID).life;
    NotPlain(s, userID, sessionID, kind, token, t);
    hide After, Interleaving, NoOverlap, TraceOf, MarkOf, R.Grants, Own, Valid, Sessions;
    assert LatestOf(R.RecordOf(lives, sessionID, life.value)) == R.Deadline(lives, life.value);
    R.RecordGrants(lives, sessionID, life.value, kind, token, t);
  }

  // ---------- a late extension ----------

  /** These steps lead from one state to the other, and from one trace to the other, without an overlap. */
  ghost predicate Leads(s: State, trace: Trace, steps: seq<Step>, s': State, trace': Trace) {
    && Interleaving(LIVES, s, steps) && NoOverlap(LIVES, s, steps, trace, 1, "s")
    && s' == After(LIVES, s, steps) && trace' == TraceOf(LIVES, s, steps, trace, 1, "s")
  }

  lemma StepLeads(s: State, trace: Trace, step: Step)
    requires Enabled(s, step) && !Overlaps(s, step, trace, 1, "s")
    ensures Leads(s, trace, [step], Next(LIVES, s, step), Follow(LIVES, s, step, trace, 1, "s"))
  {
    hide Enabled, Next, Overlaps, Follow;
    var s', trace' := Next(LIVES, s, step), Follow(LIVES, s, step, trace, 1, "s");
    assert [step][1..] == [] && [step][0] == step;
    assert Interleaving(LIVES, s', []) && NoOverlap(LIVES, s', [], trace', 1, "s");
    assert After(LIVES, s', []) == s' && TraceOf(LIVES, s', [], trace', 1, "s") == trace';
  }

  lemma {:induction false} LeadsOn(s: State, trace: Trace, a: seq<Step>, s': State, trace': Trace,
                                   b: seq<Step>, s'': State, trace'': Trace)
    requires Leads(s, trace, a, s', trace') && Leads(s', trace', b, s'', trace'')
    ensures Leads(s, trace, a + b, s'', trace'')
    decreases |a|
  {
    hide Enabled, Next, Overlaps, Follow;
    if a == [] {
      assert a + b == b;
    } else {
      assert (a + b)[1..] == a[1..] + b && (a + b)[0] == a[0];
      LeadsOn(Next(LIVES, s, a[0]), Follow(LIVES, s, a[0], trace, 1, "s"), a[1..], s', trace', b, s'', trace'');
    }
  }

  function Reading(id: nat, kind: Kind, now: int): seq<Step> {
    [Spawn(id, RotateStart(1, "s", kind)), Advance(id, now, ("", ""), ""), Advance(id, now, ("", ""), "")]
  }

  /** A rotation that starts and reads the stored record saves nothing yet. */
  lemma ReadingLeads(s: State, trace: Trace, id: nat, kind: Kind, now: int)
    requires id !in s.threads && HashesStay(s.cache) && IsStored(s.cache, 1, "s") && Alive(s.cache, MarkerKey(1, "s"), now)
    ensures var record := s.cache.mapItems[IndexKey(1)].fields["s"];
            Leads(s, trace, Reading(id, kind, now), s.(threads := s.threads[id := RotateSave(1, "s", kind, record)]), trace)
  {
    var steps, record := Reading(id, kind, now), s.cache.mapItems[IndexKey(1)].fields["s"];
    var s1 := s.(threads := s.threads[id := RotateStart(1, "s", kind)]);
    var s2 := s.(threads := s.threads[id := RotateRead(1, "s", kind)]);
    var s3 := s.(threads := s.threads[id := RotateSave(1, "s", kind, record)]);
    assert Next(LIVES, s, steps[0]) == s1;
    assert Next(LIVES, s1, steps[1]) == s2 by { assert s1.threads[id := RotateRead(1, "s", kind)] == s2.threads; }
    assert Next(LIVES, s2, steps[2]) == s3 by { assert s2.threads[id := RotateSave(1, "s", kind, record)] == s3.threads; }
    hide Next, Enabled, Leads;
    StepLeads(s, trace, steps[0]);
    StepLeads(s1, trace, steps[1]);
    StepLeads(s2, trace, steps[2]);
    LeadsOn(s, trace, [steps[0]], s1, trace, [steps[1]], s2, trace);
    LeadsOn(s, trace, [steps[0]] + [steps[1]], s2, trace, [steps[2]], s3, trace);
    assert steps == [steps[0]] + [steps[1]] + [steps[2]];
  }

  const LIFE_R := R.Life([R.Issue("a", 0)], R.Issue("r", 0))
  const LOGIN_TRACE := Trace(Some(LIFE_R), {})

  lemma LoginLeads()
    ensures Leads(INITIAL, NO_TRACE, PRELUDE[..3], State(STORED, None, ISSUED, map[0 := Finished]), LOGIN_TRACE)
  {
    var s1 := State(INITIAL.cache, None, map[], map[0 := LoginStart(1, "s")]);
    var s2 := State(Cache(map[MarkerKey(1, "s") := StrItem("1", Some(200))], map[]), None, ISSUED, map[0 := LoginSave(1, LOGIN)]);
    var s3 := State(STORED, None, ISSUED, map[0 := Finished]);
    assert s1 == Next(LIVES, INITIAL, PRELUDE[0]);
    assert Next(LIVES, s1, PRELUDE[1]) == s2;
    assert Next(LIVES, s2, PRELUDE[2]) == s3;
    assert Follow(LIVES, s2, PRELUDE[2], NO_TRACE, 1, "s") == LOGIN_TRACE by { assert Readers(s3, 1, "s") == {}; }
    assert Follow(LIVES, s1, PRELUDE[1], NO_TRACE, 1, "s") == NO_TRACE;
    hide Next, Enabled, Leads, Follow;
    StepLeads(INITIAL, NO_TRACE, PRELUDE[0]);
    StepLeads(s1, NO_TRACE, PRELUDE[1]);
    StepLeads(s2, NO_TRACE, PRELUDE[2]);
    LeadsOn(INITIAL, NO_TRACE, [PRELUDE[0]], s1, NO_TRACE, [PRELUDE[1]], s2, NO_TRACE);
    LeadsOn(INITIAL, NO_TRACE, [PRELUDE[0]] + [PRELUDE[1]], s2, NO_TRACE, [PRELUDE[2]], s3, LOGIN_TRACE);
    assert PRELUDE[..3] == [PRELUDE[0]] + [PRELUDE[1]] + [PRELUDE[2]];
  }

  /** An access rotation saves at 10; a refresh rotation then reads, saves and extends at 20; the first extends at 30. */
  const SAVE_ACCESS := Advance(1, 10, ("b", ""), "")
  const SAVE_REFRESH := Advance(2, 20, ("q", ""), "")
  const EXTEND_REFRESH := Advance(2, 20, ("", ""), "")
  const EXTEND_ACCESS := Advance(1, 30, ("", ""), "")

  const FIRST_HALF: seq<Step> := PRELUDE[..3] + (Reading(1, Access, 0) + [SAVE_ACCESS])
  const IN_TIME: seq<Step> := FIRST_HALF + (Reading(2, Refresh, 20) + [SAVE_REFRESH]) + [EXTEND_REFRESH]

  const WITH_B := TokenSession("s", "b", "r", 110, 200, "a", 100)
  const WITH_Q := TokenSession("s", "b", "q", 110, 220, "a", 100)

  function Holding(marker: int, record: TokenSession): SessionCache {
    Cache(map[MarkerKey(1, "s") := StrItem("1", Some(marker))], map[IndexKey(1) := MapItem(map["s" := record], None)])
  }

  const ISSUED_B := ISSUED["b" := OfSession(1, "s")]
  const ISSUED_Q := ISSUED_B["q" := OfSession(1, "s")]

  const LIFE_B := R.Life([R.Issue("a", 0), R.Issue("b", 10)], R.Issue("r", 0))
  const LIFE_Q := R.Life([R.Issue("a", 0), R.Issue("b", 10)], R.Issue("q", 20))

  const WAITING := map[0 := Finished, 1 := RotateExtend(1, "s", WITH_B)]
  const SAVED_Q := WAITING[2 := RotateExtend(1, "s", WITH_Q)]
  const THREADS := WAITING[2 := Finished]

  /** A rotation that has read since the last save saves. */
  lemma SavingLeads(s: State, life: R.Life, id: nat, kind: Kind, record: TokenSession, token: string, now: int,
                    saved: TokenSession)
    requires s.threads.Keys >= {id} && s.threads[id] == RotateSave(1, "s", kind, record) && Readers(s, 1, "s") == {id}
    requires s.indexOwner.None? && Unissued(s, token)
    requires saved == RotatedRecord(LIVES, record, kind, token, now) && saved.sessionID == "s"
    ensures Leads(s, Trace(Some(life), {}), [Advance(id, now, (token, ""), "")],
                  State(SetField(s.cache, IndexKey(1), "s", saved, now), None, s.issued[token := OfSession(1, "s")],
                        s.threads[id := RotateExtend(1, "s", saved)]),
                  Trace(Some(R.Renew(life, kind, R.Issue(token, now))), {}))
  {
    var step := Advance(id, now, (token, ""), "");
    var s' := State(SetField(s.cache, IndexKey(1), "s", saved, now), None, s.issued[token := OfSession(1, "s")],
                    s.threads[id := RotateExtend(1, "s", saved)]);
    hide SetField, RotatedRecord;
    assert Next(LIVES, s, step) == s';
    assert forall other :: other in Readers(s', 1, "s") ==> other in Readers(s, 1, "s") && other != id;
    assert Readers(s', 1, "s") == {};
    hide Next;
    StepLeads(s, Trace(Some(life), {}), step);
  }

  /** A rotation that has saved extends the marker to the later expiry of the record it saved. */
  lemma ExtendingLeads(s: State, trace: Trace, id: nat, saved: TokenSession, now: int, marker: int,
                       record: TokenSession)
    requires s.threads.Keys >= {id} && s.threads[id] == RotateExtend(1, "s", saved) && s.cache == Holding(marker, record)
    requires LatestOf(saved) > now
    ensures Leads(s, trace, [Advance(id, now, ("", ""), "")],
                  s.(cache := Holding(LatestOf(saved), record), threads := s.threads[id := Finished]), trace)
  {
    var step := Advance(id, now, ("", ""), "");
    assert ExpireStr(s.cache, MarkerKey(1, "s"), LatestOf(saved) - now, now) == Holding(LatestOf(saved), record);
    assert Next(LIVES, s, step) == s.(cache := Holding(LatestOf(saved), record), threads := s.threads[id := Finished]);
    hide Next;
    StepLeads(s, trace, step);
  }

  lemma SetHolding(marker: int, record: TokenSession, saved: TokenSession, now: int)
    ensures SetField(Holding(marker, record), IndexKey(1), "s", saved, now) == Holding(marker, saved)
    ensures HashesStay(Holding(marker, record)) && IsStored(Holding(marker, record), 1, "s")
    ensures now <= marker ==> Alive(Holding(marker, record), MarkerKey(1, "s"), now)
    ensures Holding(marker, record).mapItems[IndexKey(1)].fields["s"] == record
  {
    assert SetField(Holding(marker, record), IndexKey(1), "s", saved, now).mapItems[IndexKey(1)].fields == map["s" := saved];
  }

  /** A rotation reads at one time and saves at another, and no other call is between the two. */
  lemma RotationLeads(issued: map<string, Owner>, threads: map<nat, Thread>, life: R.Life, id: nat, kind: Kind,
                      token: string,
                      read: int, now: int, marker: int, record: TokenSession, saved: TokenSession)
    requires id !in threads && Readers(State(Holding(marker, record), None, issued, threads), 1, "s") == {}
    requires token != "" && token !in issued && read <= marker
    requires saved == RotatedRecord(LIVES, record, kind, token, now) && saved.sessionID == "s"
    ensures Leads(State(Holding(marker, record), None, issued, threads), Trace(Some(life), {}),
                  Reading(id, kind, read) + [Advance(id, now, (token, ""), "")],
                  State(Holding(marker, saved), None, issued[token := OfSession(1, "s")],
                        threads[id := RotateExtend(1, "s", saved)]),
                  Trace(Some(R.Renew(life, kind, R.Issue(token, now))), {}))
  {
    hide Leads, RotatedRecord, SetField;
    var s, trace := State(Holding(marker, record), None, issued, threads), Trace(Some(life), {});
    var s1 := s.(threads := threads[id := RotateSave(1, "s", kind, record)]);
    SetHolding(marker, record, saved, read);
    SetHolding(marker, record, saved, now);
    ReadingLeads(s, trace, id, kind, read);
    assert forall other :: other in Readers(s1, 1, "s") && other != id ==> other in Readers(s, 1, "s");
    assert Readers(s1, 1, "s") == {id};
    SavingLeads(s1, life, id, kind, record, token, now, saved);
    assert s1.threads[id := RotateExtend(1, "s", saved)] == threads[id := RotateExtend(1, "s", saved)];
    LeadsOn(s, trace, Reading(id, kind, read), s1, trace, [Advance(id, now, (token, ""), "")],
            State(Holding(marker, saved), None, issued[token := OfSession(1, "s")], threads[id := RotateExtend(1, "s", saved)]),
            Trace(Some(R.Renew(life, kind, R.Issue(token, now))), {}));
  }

  /** Everything up to the late extension. */
  lemma InTimeLeads()
    ensures Leads(INITIAL, NO_TRACE, IN_TIME, State(Holding(220, WITH_Q), None, ISSUED_Q, THREADS), Trace(Some(LIFE_Q), {}))
  {
    var t0, t1, t2 := LOGIN_TRACE, Trace(Some(LIFE_B), {}), Trace(Some(LIFE_Q), {});
    assert STORED == Holding(200, LOGIN) && t0.life == Some(LIFE_R);
    assert R.Renew(LIFE_R, Access, R.Issue("b", 10)) == LIFE_B && R.Renew(LIFE_B, Refresh, R.Issue("q", 20)) == LIFE_Q;
    hide Leads, Holding, R.Renew;
    LoginLeads();
    RotationLeads(ISSUED, map[0 := Finished], LIFE_R, 1, Access, "b", 0, 10, 200, LOGIN, WITH_B);
    RotationLeads(ISSUED_B, WAITING, LIFE_B, 2, Refresh, "q", 20, 20, 200, WITH_B, WITH_Q);
    var s0 := State(Holding(200, LOGIN), None, ISSUED, map[0 := Finished]);
    var s1 := State(Holding(200, WITH_B), None, ISSUED_B, WAITING);
    var s2 := State(Holding(200, WITH_Q), None, ISSUED_Q, SAVED_Q);
    LeadsOn(INITIAL, NO_TRACE, PRELUDE[..3], s0, t0, Reading(1, Access, 0) + [SAVE_ACCESS], s1, t1);
    LeadsOn(INITIAL, NO_TRACE, FIRST_HALF, s1, t1, Reading(2, Refresh, 20) + [SAVE_REFRESH], s2, t2);
    ExtendingLeads(s2, t2, 2, WITH_Q, 20, 200, WITH_Q);
    assert SAVED_Q[2 := Finished] == THREADS;
    LeadsOn(INITIAL, NO_TRACE, FIRST_HALF + (Reading(2, Refresh, 20) + [SAVE_REFRESH]), s2, t2, [EXTEND_REFRESH],
            State(Holding(220, WITH_Q), None, ISSUED_Q, THREADS), t2);
  }

  lemma MarkerDecides()
    ensures Valid(Holding(220, WITH_Q), 1, Refresh, "q", 210) && !Valid(Holding(200, WITH_Q), 1, Refresh, "q", 210)
  {
    var live := Sessions(Holding(220, WITH_Q), 1, 210);
    assert "s" in live && Accepts(live["s"], "q", Refresh, 210);
  }

  /**
   Without any overlap a new token can still be lost. The refresh token saved at 20 is granted until 220 and
   validates at 210, until the earlier rotation extends the marker after all: to 200, the later expiry of the
   record it had saved itself.
   */
  lemma LateExtensionLosesAToken()
    ensures Interleaving(LIVES, INITIAL, IN_TIME + [EXTEND_ACCESS])
    ensures NoOverlap(LIVES, INITIAL, IN_TIME + [EXTEND_ACCESS], NO_TRACE, 1, "s")
    ensures TraceOf(LIVES, INITIAL, IN_TIME + [EXTEND_ACCESS], NO_TRACE, 1, "s").life == Some(LIFE_Q)
    ensures R.Grants(LIVES, LIFE_Q, Refresh, "q", 210)
    ensures Interleaving(LIVES, INITIAL, IN_TIME) && Valid(After(LIVES, INITIAL, IN_TIME).cache, 1, Refresh, "q", 210)
    ensures !Valid(After(LIVES, INITIAL, IN_TIME + [EXTEND_ACCESS]).cache, 1, Refresh, "q", 210)
  {
    InTimeLeads();
    var s, t := State(Holding(220, WITH_Q), None, ISSUED_Q, THREADS), Trace(Some(LIFE_Q), {});
    ExtendingLeads(s, t, 1, WITH_B, 30, 220, WITH_Q);
    var late := s.(cache := Holding(200, WITH_Q), threads := THREADS[1 := Finished]);
    LeadsOn(INITIAL, NO_TRACE, IN_TIME, s, t, [EXTEND_ACCESS], late, t);
    hide Interleaving, After, NoOverlap, TraceOf, Valid;
    MarkerDecides();
  }
}
