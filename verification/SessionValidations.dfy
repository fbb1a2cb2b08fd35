/**
 What an interleaved validation answers (auth/data/user_token.go): an accepted token was found good, for its
 user and its kind, during the validation; a token that stays good is accepted; and a validation that nothing
 interrupts answers exactly what the cache says.
 */
module SessionValidations {
  import opened Wrappers
  import opened MemoryCache
  import opened SessionTokens
  import opened SessionProtocol
  import opened SessionOverlap

  /** The state before the i-th step. */
  function StateAt(lives: Lives, s: State, steps: seq<Step>, i: nat): State
    requires Interleaving(lives, s, steps) && i <= |steps|
    decreases i
  {
    if i == 0 then s else StateAt(lives, Next(lives, s, steps[0]), steps[1..], i - 1)
  }

  lemma {:induction false} StepAt(lives: Lives, s: State, steps: seq<Step>, i: nat)
    requires Interleaving(lives, s, steps) && i < |steps|
    ensures Enabled(StateAt(lives, s, steps, i), steps[i])
    ensures StateAt(lives, s, steps, i + 1) == Next(lives, StateAt(lives, s, steps, i), steps[i])
    decreases i
  {
    hide Enabled, Next;
    if i == 0 {
    } else {
      StepAt(lives, Next(lives, s, steps[0]), steps[1..], i - 1);
    }
  }

  lemma {:induction false} LastState(lives: Lives, s: State, steps: seq<Step>)
    requires Interleaving(lives, s, steps)
    ensures StateAt(lives, s, steps, |steps|) == After(lives, s, steps)
    decreases |steps|
  {
    hide Enabled, Next;
    if steps == [] {
    } else {
      LastState(lives, Next(lives, s, steps[0]), steps[1..]);
    }
  }

  // ---------- what a call has seen ----------

  /** The a-th step is one of the call's. */
  predicate By(steps: seq<Step>, a: nat, id: nat) {
    a < |steps| && steps[a].Advance? && steps[a].id == id
  }

  /** At its a-th step the call sees this record in the user's index. */
  predicate ReadAt(lives: Lives, steps: seq<Step>, a: nat, id: nat, userID: int, sid: string, record: TokenSession)
    requires Interleaving(lives, INITIAL, steps)
  {
    By(steps, a, id)
    && var fields := Fields(StateAt(lives, INITIAL, steps, a).cache, IndexKey(userID), steps[a].now);
       fields.Some? && sid in fields.value && fields.value[sid] == record
  }

  /** At its b-th step the call sees the session's marker alive. */
  predicate LiveAt(lives: Lives, steps: seq<Step>, b: nat, id: nat, userID: int, sid: string)
    requires Interleaving(lives, INITIAL, steps)
  {
    By(steps, b, id) && Alive(StateAt(lives, INITIAL, steps, b).cache, MarkerKey(userID, sid), steps[b].now)
  }

  /** At its a-th step the call sees the token stored for the user. */
  predicate StoredAt(lives: Lives, steps: seq<Step>, a: nat, id: nat, userID: int, kind: Kind, token: string)
    requires Interleaving(lives, INITIAL, steps)
  {
    By(steps, a, id) && Stored(StateAt(lives, INITIAL, steps, a).cache, Key0(userID, kind), token, steps[a].now)
  }

  /** At its c-th step the record accepts the token. */
  predicate AcceptsAt(steps: seq<Step>, c: nat, id: nat, record: TokenSession, kind: Kind, token: string) {
    By(steps, c, id) && Accepts(record, token, kind, steps[c].now)
  }

  ghost predicate HasRead(lives: Lives, steps: seq<Step>, upto: nat, id: nat, userID: int, sid: string,
                          record: TokenSession)
    requires Interleaving(lives, INITIAL, steps)
  {
    exists a: nat :: a < upto && ReadAt(lives, steps, a, id, userID, sid, record)
  }

  /** The record was read, and after that the session's marker was alive. */
  ghost predicate HasCollected(lives: Lives, steps: seq<Step>, upto: nat, id: nat, userID: int, sid: string,
                               record: TokenSession)
    requires Interleaving(lives, INITIAL, steps)
  {
    exists a: nat, b: nat ::
      a < b < upto && ReadAt(lives, steps, a, id, userID, sid, record) && LiveAt(lives, steps, b, id, userID, sid)
  }

  ghost predicate HasStored(lives: Lives, steps: seq<Step>, upto: nat, id: nat, userID: int, kind: Kind, token: string)
    requires Interleaving(lives, INITIAL, steps)
  {
    exists a: nat :: a < upto && StoredAt(lives, steps, a, id, userID, kind, token)
  }

  /** A record was read, its session was alive after that, and at the end the record accepted the token. */
  ghost predicate HasFound(lives: Lives, steps: seq<Step>, upto: nat, id: nat, userID: int, kind: Kind, token: string)
    requires Interleaving(lives, INITIAL, steps)
  {
    exists sid, record, c: nat ::
      c < upto && HasCollected(lives, steps, c, id, userID, sid, record) && AcceptsAt(steps, c, id, record, kind, token)
  }

  /** The call was started to validate this token. */
  ghost predicate Asked(steps: seq<Step>, upto: nat, id: nat, userID: int, kind: Kind, token: string) {
    exists a: nat :: a < upto && a < |steps| && steps[a] == Spawn(id, CheckStart(userID, token, kind))
  }

  ghost predicate AskedBy(steps: seq<Step>, upto: nat, id: nat, userID: int, purpose: Purpose) {
    purpose.Validate? ==> Asked(steps, upto, id, userID, purpose.kind, purpose.token)
  }

  ghost predicate AllRead(lives: Lives, steps: seq<Step>, upto: nat, id: nat, userID: int, records: map<string,
                          TokenSession>)
    requires Interleaving(lives, INITIAL, steps)
  {
    forall sid :: sid in records ==> HasRead(lives, steps, upto, id, userID, sid, records[sid])
  }

  ghost predicate AllCollected(lives: Lives, steps: seq<Step>, upto: nat, id: nat, userID: int, records: map<string,
                               TokenSession>)
    requires Interleaving(lives, INITIAL, steps)
  {
    forall sid :: sid in records ==> HasCollected(lives, steps, upto, id, userID, sid, records[sid])
  }

  /** What a call knows it has seen. */
  ghost predicate Justified(lives: Lives, steps: seq<Step>, upto: nat, id: nat, t: Thread)
    requires Interleaving(lives, INITIAL, steps)
  {
    match t
    case CheckStart(userID, token, kind) => Asked(steps, upto, id, userID, kind, token)
    case ListStart(userID, purpose) => AskedBy(steps, upto, id, userID, purpose)
    case ListLoop(userID, purpose, pending, sessions) =>
      && AskedBy(steps, upto, id, userID, purpose)
      && AllRead(lives, steps, upto, id, userID, pending) && AllCollected(lives, steps, upto, id, userID, sessions)
    case ListDrop(userID, purpose, _, pending, sessions) =>
      && AskedBy(steps, upto, id, userID, purpose)
      && AllRead(lives, steps, upto, id, userID, pending) && AllCollected(lives, steps, upto, id, userID, sessions)
    case Listed(userID, sessions) => AllCollected(lives, steps, upto, id, userID, sessions)
    case Accepted(userID, token, kind) =>
      && Asked(steps, upto, id, userID, kind, token)
      && (HasStored(lives, steps, upto, id, userID, kind, token) || HasFound(lives, steps, upto, id, userID, kind, token))
    case _ => true
  }

  lemma JustifiedLater(lives: Lives, steps: seq<Step>, upto: nat, id: nat, t: Thread)
    requires Interleaving(lives, INITIAL, steps) && Justified(lives, steps, upto, id, t)
    ensures Justified(lives, steps, upto + 1, id, t)
  {
    hide ReadAt, LiveAt, StoredAt, AcceptsAt, Interleaving;
  }

  /** A listing begins with all records of the index read. */
  lemma ListingReads(lives: Lives, steps: seq<Step>, i: nat, id: nat, userID: int)
    requires Interleaving(lives, INITIAL, steps) && By(steps, i, id)
    ensures var fields := Fields(StateAt(lives, INITIAL, steps, i).cache, IndexKey(userID), steps[i].now);
            fields.Some? ==> AllRead(lives, steps, i + 1, id, userID, fields.value)
  {
    var fields := Fields(StateAt(lives, INITIAL, steps, i).cache, IndexKey(userID), steps[i].now);
    if fields.Some? {
      forall sid | sid in fields.value ensures HasRead(lives, steps, i + 1, id, userID, sid, fields.value[sid]) {
        assert ReadAt(lives, steps, i, id, userID, sid, fields.value[sid]);
      }
    }
  }

  /** A session whose marker is seen alive joins the collected ones. */
  lemma ListingCollects(lives: Lives, steps: seq<Step>, i: nat, id: nat, userID: int, sid: string,
                        pending: map<string, TokenSession>, sessions: map<string, TokenSession>)
    requires Interleaving(lives, INITIAL, steps) && LiveAt(lives, steps, i, id, userID, sid) && sid in pending
    requires AllRead(lives, steps, i, id, userID, pending) && AllCollected(lives, steps, i, id, userID, sessions)
    ensures AllCollected(lives, steps, i + 1, id, userID, sessions[sid := pending[sid]])
  {
    hide ReadAt, LiveAt, Interleaving;
    var collected := sessions[sid := pending[sid]];
    forall other | other in collected ensures HasCollected(lives, steps, i + 1, id, userID, other, collected[other]) {
      if other == sid {
        assert HasRead(lives, steps, i, id, userID, sid, pending[sid]);
      } else {
        assert HasCollected(lives, steps, i, id, userID, other, sessions[other]);
      }
    }
  }

  /** The verdict rests on what was collected. */
  lemma VerdictJustified(lives: Lives, steps: seq<Step>, i: nat, id: nat, userID: int, purpose: Purpose,
                         sessions: map<string, TokenSession>)
    requires Interleaving(lives, INITIAL, steps) && By(steps, i, id)
    requires AskedBy(steps, i + 1, id, userID, purpose) && AllCollected(lives, steps, i, id, userID, sessions)
    requires AllCollected(lives, steps, i + 1, id, userID, sessions)
    ensures Justified(lives, steps, i + 1, id, Verdict(userID, purpose, sessions, steps[i].now))
  {
    hide Interleaving, HasCollected, Asked;
    if purpose.Validate? && Verdict(userID, purpose, sessions, steps[i].now).Accepted? {
      var sid :| sid in sessions && Accepts(sessions[sid], purpose.token, purpose.kind, steps[i].now);
      assert AcceptsAt(steps, i, id, sessions[sid], purpose.kind, purpose.token);
    }
  }

  lemma CheckJustified(lives: Lives, steps: seq<Step>, i: nat, id: nat)
    requires Interleaving(lives, INITIAL, steps) && By(steps, i, id)
    requires var s := StateAt(lives, INITIAL, steps, i); Enabled(s, steps[i]) && Justified(lives, steps, i, id, s.threads[id])
    requires StateAt(lives, INITIAL, steps, i).threads[id].CheckStart?
    ensures var s := StateAt(lives, INITIAL, steps, i);
            Justified(lives, steps, i + 1, id, Next(lives, s, steps[i]).threads[id])
  {
    var s := StateAt(lives, INITIAL, steps, i);
    var t := s.threads[id];
    JustifiedLater(lives, steps, i, id, t);
    if Stored(s.cache, Key0(t.userID, t.kind), t.token, steps[i].now) {
      assert StoredAt(lives, steps, i, id, t.userID, t.kind, t.token);
    }
    hide Interleaving, StateAt, HasRead, HasCollected, HasStored, HasFound, Asked, Verdict, Accepts;
    hide NewSession, RotatedRecord, SetStr, SetField, DelField, ExpireStr, DelStr, Touched, TouchedHash, Fields, Alive, Stored;
  }

  lemma ListingJustified(lives: Lives, steps: seq<Step>, i: nat, id: nat)
    requires Interleaving(lives, INITIAL, steps) && By(steps, i, id)
    requires var s := StateAt(lives, INITIAL, steps, i); Enabled(s, steps[i]) && Justified(lives, steps, i, id, s.threads[id])
    requires StateAt(lives, INITIAL, steps, i).threads[id].ListStart?
    ensures var s := StateAt(lives, INITIAL, steps, i);
            Justified(lives, steps, i + 1, id, Next(lives, s, steps[i]).threads[id])
  {
    var t := StateAt(lives, INITIAL, steps, i).threads[id];
    JustifiedLater(lives, steps, i, id, t);
    ListingReads(lives, steps, i, id, t.userID);
    hide Interleaving, StateAt, HasRead, HasCollected, HasStored, HasFound, Asked, Verdict, Accepts;
    hide NewSession, RotatedRecord, SetStr, SetField, DelField, ExpireStr, DelStr, Touched, TouchedHash, Fields, Alive, Stored;
  }

  /** One turn of a listing's loop. */
  lemma LoopMoves(lives: Lives, s: State, step: Step)
    requires Enabled(s, step) && step.Advance? && s.threads[step.id].ListLoop?
    ensures var s', t := Next(lives, s, step), s.threads[step.id];
            var marker := MarkerKey(t.userID, step.sid);
            && step.id in s'.threads && (t.pending != map[] ==> step.sid in t.pending)
            && s'.threads[step.id] ==
                 (if t.pending == map[] then Verdict(t.userID, t.purpose, t.sessions, step.now)
                  else if Alive(s.cache, marker, step.now) then
                    ListLoop(t.userID, t.purpose, t.pending - {step.sid}, t.sessions[step.sid := t.pending[step.sid]])
                  else ListDrop(t.userID, t.purpose, step.sid, t.pending - {step.sid}, t.sessions))
            && s'.cache == (if t.pending == map[] then s.cache else Touched(s.cache, marker, step.now))
  {
    hide Verdict, Touched, Alive;
  }

  lemma LoopJustified(lives: Lives, steps: seq<Step>, i: nat, id: nat)
    requires Interleaving(lives, INITIAL, steps) && By(steps, i, id)
    requires var s := StateAt(lives, INITIAL, steps, i); Enabled(s, steps[i]) && Justified(lives, steps, i, id, s.threads[id])
    requires StateAt(lives, INITIAL, steps, i).threads[id].ListLoop?
    ensures var s := StateAt(lives, INITIAL, steps, i);
            Justified(lives, steps, i + 1, id, Next(lives, s, steps[i]).threads[id])
  {
    var s, step := StateAt(lives, INITIAL, steps, i), steps[i];
    var t := s.threads[id];
    LoopMoves(lives, s, step);
    JustifiedLater(lives, steps, i, id, t);
    if t.pending == map[] {
      VerdictJustified(lives, steps, i, id, t.userID, t.purpose, t.sessions);
    } else {
      StillRead(lives, steps, i + 1, id, t.userID, t.pending, step.sid);
      if Alive(s.cache, MarkerKey(t.userID, step.sid), step.now) {
        assert LiveAt(lives, steps, i, id, t.userID, step.sid);
        ListingCollects(lives, steps, i, id, t.userID, step.sid, t.pending, t.sessions);
      }
    }
    hide Interleaving, StateAt, Next, AllRead, AllCollected, Asked, Verdict, Enabled;
  }

  lemma StillRead(lives: Lives, steps: seq<Step>, upto: nat, id: nat, userID: int, pending: map<string,
                  TokenSession>, sid: string)
    requires Interleaving(lives, INITIAL, steps) && AllRead(lives, steps, upto, id, userID, pending)
    ensures AllRead(lives, steps, upto, id, userID, pending - {sid})
  {
    hide HasRead, Interleaving;
  }

  /** The call's own step. */
  lemma OwnStepJustified(lives: Lives, steps: seq<Step>, i: nat, id: nat)
    requires Interleaving(lives, INITIAL, steps) && By(steps, i, id)
    requires var s := StateAt(lives, INITIAL, steps, i); Enabled(s, steps[i]) && Justified(lives, steps, i, id, s.threads[id])
    ensures var s := StateAt(lives, INITIAL, steps, i);
            Justified(lives, steps, i + 1, id, Next(lives, s, steps[i]).threads[id])
  {
    var t := StateAt(lives, INITIAL, steps, i).threads[id];
    if t.CheckStart? {
      CheckJustified(lives, steps, i, id);
    } else if t.ListStart? {
      ListingJustified(lives, steps, i, id);
    } else if t.ListLoop? {
      LoopJustified(lives, steps, i, id);
    } else {
      JustifiedLater(lives, steps, i, id, t);
      hide Interleaving, StateAt, HasRead, HasCollected, HasStored, HasFound, Asked, Verdict, Accepts;
      hide NewSession, RotatedRecord, SetStr, SetField, DelField, ExpireStr, DelStr, Touched, TouchedHash, Fields, Alive, Stored;
    }
  }

  lemma {:induction false} AlwaysJustified(lives: Lives, steps: seq<Step>, i: nat, id: nat)
    requires Interleaving(lives, INITIAL, steps) && i <= |steps|
    requires id in StateAt(lives, INITIAL, steps, i).threads
    ensures Justified(lives, steps, i, id, StateAt(lives, INITIAL, steps, i).threads[id])
    decreases i
  {
    if i == 0 {
    } else {
      var s, step := StateAt(lives, INITIAL, steps, i - 1), steps[i - 1];
      StepAt(lives, INITIAL, steps, i - 1);
      if step.id == id && step.Spawn? {
        StartJustified(lives, steps, i - 1, id);
      } else {
        assert id in s.threads by { hide AdvanceThread; }
        AlwaysJustified(lives, steps, i - 1, id);
        if step.id == id {
          OwnStepJustified(lives, steps, i - 1, id);
        } else {
          OthersStand(lives, s, step, id);
          JustifiedLater(lives, steps, i - 1, id, s.threads[id]);
        }
      }
    }
  }

  lemma StartJustified(lives: Lives, steps: seq<Step>, i: nat, id: nat)
    requires Interleaving(lives, INITIAL, steps) && i < |steps| && steps[i].Spawn? && steps[i].id == id && IsStart(steps[i].thread)
    ensures Justified(lives, steps, i + 1, id, steps[i].thread)
  {
    hide Interleaving;
  }

  /**
   In every interleaving, a token is accepted only for the user and the kind it was presented for, and only if
   during the validation it was stored for the user and alive, or was accepted by a record that the validation
   had read and whose session it then found alive.
   */
  lemma AcceptedWasGood(lives: Lives, steps: seq<Step>, id: nat, userID: int, kind: Kind, token: string)
    requires Interleaving(lives, INITIAL, steps) && id in After(lives, INITIAL, steps).threads
    requires After(lives, INITIAL, steps).threads[id] == Accepted(userID, token, kind)
    ensures Asked(steps, |steps|, id, userID, kind, token)
    ensures HasStored(lives, steps, |steps|, id, userID, kind, token) || HasFound(lives, steps, |steps|, id, userID, kind, token)
  {
    LastState(lives, INITIAL, steps);
    AlwaysJustified(lives, steps, |steps|, id);
  }

  /** In every interleaving, a listing shows only sessions whose record it had read and then found alive. */
  lemma ListedWasLive(lives: Lives, steps: seq<Step>, id: nat, userID: int, sessions: map<string, TokenSession>)
    requires Interleaving(lives, INITIAL, steps) && id in After(lives, INITIAL, steps).threads
    requires After(lives, INITIAL, steps).threads[id] == Listed(userID, sessions)
    ensures AllCollected(lives, steps, |steps|, id, userID, sessions)
  {
    LastState(lives, INITIAL, steps);
    AlwaysJustified(lives, steps, |steps|, id);
  }

  // ---------- a token that stays good ----------

  /** At every step of the call the session is live, and what is stored then accepts the token at all its later steps. */
  ghost predicate GoodThroughout(lives: Lives, steps: seq<Step>, id: nat, userID: int, sid: string, kind: Kind,
                                 token: string)
    requires Interleaving(lives, INITIAL, steps)
  {
    forall i, j :: By(steps, i, id) && By(steps, j, id) && i <= j ==> GoodFrom(lives, steps, i, j, userID, sid, kind, token)
  }

  predicate GoodFrom(lives: Lives, steps: seq<Step>, i: nat, j: nat, userID: int, sid: string, kind: Kind,
                     token: string)
    requires Interleaving(lives, INITIAL, steps) && i < |steps| && j < |steps| && steps[i].Advance? && steps[j].Advance?
  {
    var live := Sessions(StateAt(lives, INITIAL, steps, i).cache, userID, steps[i].now);
    sid in live && Accepts(live[sid], token, kind, steps[j].now)
  }

  /** The record will accept the token at every later step of the call. */
  ghost predicate WillAccept(steps: seq<Step>, upto: nat, id: nat, record: TokenSession, kind: Kind, token: string) {
    forall j :: upto <= j && By(steps, j, id) ==> Accepts(record, token, kind, steps[j].now)
  }

  ghost predicate Holds(steps: seq<Step>, upto: nat, id: nat, records: map<string, TokenSession>, sid: string,
                        kind: Kind, token: string) {
    sid in records && WillAccept(steps, upto, id, records[sid], kind, token)
  }

  /** Where a validation of the token can be that has not missed its session. */
  ghost predicate OnTheWay(steps: seq<Step>, upto: nat, id: nat, t: Thread, userID: int, sid: string, kind: Kind,
                           token: string) {
    match t
    case CheckStart(user, tok, k) => (user, tok, k) == (userID, token, kind)
    case ListStart(user, purpose) => user == userID && purpose == Validate(token, kind)
    case ListLoop(user, purpose, pending, sessions) =>
      && user == userID && purpose == Validate(token, kind)
      && Holds(steps, upto, id, if sid in pending then pending else sessions, sid, kind, token)
    case ListDrop(user, purpose, _, pending, sessions) =>
      && user == userID && purpose == Validate(token, kind)
      && Holds(steps, upto, id, if sid in pending then pending else sessions, sid, kind, token)
    case Accepted(user, tok, k) => (user, tok, k) == (userID, token, kind)
    case _ => false
  }

  lemma OnTheWayLater(steps: seq<Step>, upto: nat, id: nat, t: Thread, userID: int, sid: string, kind: Kind,
                      token: string)
    requires OnTheWay(steps, upto, id, t, userID, sid, kind, token)
    ensures OnTheWay(steps, upto + 1, id, t, userID, sid, kind, token)
  {
    hide Accepts, By;
  }

  lemma LoopOnTheWay(lives: Lives, s: State, steps: seq<Step>, i: nat, id: nat, userID: int, sid: string, kind: Kind,
                     token: string)
    requires By(steps, i, id) && Enabled(s, steps[i]) && s.threads[id].ListLoop?
    requires OnTheWay(steps, i, id, s.threads[id], userID, sid, kind, token)
    requires Alive(s.cache, MarkerKey(userID, sid), steps[i].now)
    ensures OnTheWay(steps, i + 1, id, Next(lives, s, steps[i]).threads[id], userID, sid, kind, token)
  {
    var t := s.threads[id];
    LoopMoves(lives, s, steps[i]);
    OnTheWayLater(steps, i, id, t, userID, sid, kind, token);
    if t.pending == map[] {
      assert Holds(steps, i, id, t.sessions, sid, kind, token);
      assert Accepts(t.sessions[sid], token, kind, steps[i].now);
    }
    assert steps[i].id == id;
    hide Next, Enabled, WillAccept, Accepts, Alive, By;
  }

  lemma OwnStepOnTheWay(lives: Lives, steps: seq<Step>, i: nat, id: nat, userID: int, sid: string, kind: Kind,
                        token: string)
    requires Interleaving(lives, INITIAL, steps) && GoodThroughout(lives, steps, id, userID, sid, kind, token) && By(steps, i, id)
    requires var s := StateAt(lives, INITIAL, steps, i);
             Enabled(s, steps[i]) && OnTheWay(steps, i, id, s.threads[id], userID, sid, kind, token)
    ensures var s := StateAt(lives, INITIAL, steps, i);
            OnTheWay(steps, i + 1, id, Next(lives, s, steps[i]).threads[id], userID, sid, kind, token)
  {
    var s := StateAt(lives, INITIAL, steps, i);
    var t, live := s.threads[id], Sessions(s.cache, userID, steps[i].now);
    assert GoodFrom(lives, steps, i, i, userID, sid, kind, token);
    if t.ListLoop? {
      LoopOnTheWay(lives, s, steps, i, id, userID, sid, kind, token);
    } else if t.ListStart? {
      forall j | i + 1 <= j && By(steps, j, id) ensures Accepts(live[sid], token, kind, steps[j].now) {
        assert GoodFrom(lives, steps, i, j, userID, sid, kind, token);
      }
      hide GoodFrom, GoodThroughout, StateAt, Interleaving, Accepts, Alive, Verdict, TouchedHash;
    } else {
      OnTheWayLater(steps, i, id, t, userID, sid, kind, token);
      hide GoodThroughout, GoodFrom, StateAt, Interleaving, Accepts, Alive, Verdict, Touched, DelField, Holds, Sessions;
    }
  }

  lemma {:induction false} AlwaysOnTheWay(lives: Lives, steps: seq<Step>, start: nat, i: nat, id: nat,
                                          userID: int, sid: string, kind: Kind, token: string)
    requires Interleaving(lives, INITIAL, steps) && GoodThroughout(lives, steps, id, userID, sid, kind, token)
    requires start < i <= |steps| && steps[start] == Spawn(id, CheckStart(userID, token, kind))
    ensures var s := StateAt(lives, INITIAL, steps, i);
            id in s.threads && OnTheWay(steps, i, id, s.threads[id], userID, sid, kind, token)
    decreases i
  {
    var s, step := StateAt(lives, INITIAL, steps, i - 1), steps[i - 1];
    StepAt(lives, INITIAL, steps, i - 1);
    if i == start + 1 {
    } else {
      AlwaysOnTheWay(lives, steps, start, i - 1, id, userID, sid, kind, token);
      hide GoodThroughout, StateAt, OnTheWay, Interleaving;
      if step.id == id {
        OwnStepOnTheWay(lives, steps, i - 1, id, userID, sid, kind, token);
        CallStays(lives, s, step);
      } else {
        OthersStand(lives, s, step, id);
        OnTheWayLater(steps, i - 1, id, s.threads[id], userID, sid, kind, token);
      }
    }
  }

  lemma CallStays(lives: Lives, s: State, step: Step)
    requires Enabled(s, step)
    ensures step.id in Next(lives, s, step).threads
  {
    hide Verdict, Accepts, RotatedRecord, NewSession;
  }

  /**
   In every interleaving, a validation at all of whose steps some session of the user is live with a record that
   keeps accepting the token ends by accepting it.
   */
  lemma GoodIsAccepted(lives: Lives, steps: seq<Step>, start: nat, id: nat, userID: int, sid: string, kind: Kind,
                       token: string)
    requires Interleaving(lives, INITIAL, steps) && GoodThroughout(lives, steps, id, userID, sid, kind, token)
    requires start < |steps| && steps[start] == Spawn(id, CheckStart(userID, token, kind))
    requires id in After(lives, INITIAL, steps).threads && IsOver(After(lives, INITIAL, steps).threads[id])
    ensures After(lives, INITIAL, steps).threads[id] == Accepted(userID, token, kind)
  {
    LastState(lives, INITIAL, steps);
    AlwaysOnTheWay(lives, steps, start, |steps|, id, userID, sid, kind, token);
  }

  // ---------- a call that runs alone ----------

  /** All steps are the call's, at one time. */
  predicate Alone(steps: seq<Step>, id: nat, now: int) {
    forall i :: 0 <= i < |steps| ==> steps[i].Advance? && steps[i].id == id && steps[i].now == now
  }

  function IndexOf(c: SessionCache, userID: int, now: int): map<string, TokenSession> {
    var fields := Fields(c, IndexKey(userID), now);
    if fields.Some? then fields.value else map[]
  }

  /** The markers of the user's sessions are alive as in the other cache. */
  ghost predicate SameMarkers(c: SessionCache, c': SessionCache, userID: int, now: int) {
    forall sid :: Alive(c, MarkerKey(userID, sid), now) == Alive(c', MarkerKey(userID, sid), now)
  }

  /** The listing has collected the live ones among the sessions it is done with. */
  ghost predicate HalfListed(c: SessionCache, userID: int, now: int, pending: map<string, TokenSession>,
                             sessions: map<string, TokenSession>) {
    && (forall sid :: sid in pending ==> sid in IndexOf(c, userID, now) && pending[sid] == IndexOf(c, userID, now)[sid])
    && sessions == map sid | sid in Sessions(c, userID, now) && sid !in pending :: Sessions(c, userID, now)[sid]
  }

  /** How far a listing alone has come, from this cache on. */
  ghost predicate AloneAt(c: SessionCache, s: State, id: nat, userID: int, purpose: Purpose, now: int) {
    && id in s.threads && SameMarkers(c, s.cache, userID, now)
    && match s.threads[id]
       case ListStart(user, p) => user == userID && p == purpose && IndexOf(s.cache, userID, now) == IndexOf(c, userID, now)
       case ListLoop(user, p, pending, sessions) => user == userID && p == purpose && HalfListed(c, userID, now, pending, sessions)
       case ListDrop(user, p, _, pending, sessions) => user == userID && p == purpose && HalfListed(c, userID, now, pending, sessions)
       case t => t == Verdict(userID, purpose, Sessions(c, userID, now), now)
  }

  lemma TouchKeepsMarkers(c: SessionCache, c': SessionCache, key: Key, field: string, userID: int, now: int)
    requires SameMarkers(c, c', userID, now)
    ensures SameMarkers(c, Touched(c', key, now), userID, now)
    ensures SameMarkers(c, TouchedHash(c', key, now), userID, now)
    ensures SameMarkers(c, DelField(c', key, field, now), userID, now)
  {
  }

  lemma SessionsOfIndex(c: SessionCache, userID: int, now: int)
    ensures Sessions(c, userID, now)
         == map sid | sid in IndexOf(c, userID, now) && Alive(c, MarkerKey(userID, sid), now) :: IndexOf(c, userID, now)[sid]
  {
  }

  /** One session more is done with. */
  lemma CollectOne(live: map<string, TokenSession>, pending: map<string, TokenSession>, sessions: map<string,
                   TokenSession>, sid: string)
    requires sid in pending && (sid in live ==> pending[sid] == live[sid])
    requires sessions == map k | k in live && k !in pending :: live[k]
    ensures (if sid in live then sessions[sid := pending[sid]] else sessions)
         == map k | k in live && k !in pending - {sid} :: live[k]
  {
  }

  lemma LoopAlone(lives: Lives, c: SessionCache, s: State, step: Step, userID: int, purpose: Purpose, now: int)
    requires Enabled(s, step) && step.Advance? && step.now == now && s.threads[step.id].ListLoop?
    requires AloneAt(c, s, step.id, userID, purpose, now)
    ensures AloneAt(c, Next(lives, s, step), step.id, userID, purpose, now)
  {
    var t, live := s.threads[step.id], Sessions(c, userID, now);
    LoopMoves(lives, s, step);
    TouchKeepsMarkers(c, s.cache, MarkerKey(userID, step.sid), "", userID, now);
    hide Next, Enabled, Sessions, Alive, IndexOf, Verdict, Touched;
    if t.pending == map[] {
      AllListed(c, userID, now, t.pending, t.sessions);
    } else {
      assert Alive(c, MarkerKey(userID, step.sid), now) == Alive(s.cache, MarkerKey(userID, step.sid), now);
      HalfListedMore(c, userID, now, t.pending, t.sessions, step.sid);
      hide SameMarkers, HalfListed;
    }
  }

  lemma AllListed(c: SessionCache, userID: int, now: int, pending: map<string, TokenSession>,
                  sessions: map<string, TokenSession>)
    requires HalfListed(c, userID, now, pending, sessions) && pending == map[]
    ensures sessions == Sessions(c, userID, now)
  {
    hide Sessions, IndexOf;
  }

  lemma HalfListedMore(c: SessionCache, userID: int, now: int, pending: map<string, TokenSession>,
                       sessions: map<string, TokenSession>, sid: string)
    requires HalfListed(c, userID, now, pending, sessions) && sid in pending
    ensures HalfListed(c, userID, now, pending - {sid},
                       if Alive(c, MarkerKey(userID, sid), now) then sessions[sid := pending[sid]] else sessions)
  {
    SessionsOfIndex(c, userID, now);
    var live := Sessions(c, userID, now);
    assert sid in live <==> Alive(c, MarkerKey(userID, sid), now);
    hide Sessions, Alive, IndexOf;
    CollectOne(live, pending, sessions, sid);
  }

  lemma StepAlone(lives: Lives, c: SessionCache, s: State, step: Step, userID: int, purpose: Purpose, now: int)
    requires Enabled(s, step) && step.Advance? && step.now == now && AloneAt(c, s, step.id, userID, purpose, now)
    ensures AloneAt(c, Next(lives, s, step), step.id, userID, purpose, now)
  {
    var t := s.threads[step.id];
    if t.ListLoop? {
      LoopAlone(lives, c, s, step, userID, purpose, now);
    } else if t.ListStart? {
      TouchKeepsMarkers(c, s.cache, IndexKey(userID), "", userID, now);
      SessionsOfIndex(c, userID, now);
      var fields := IndexOf(s.cache, userID, now);
      assert (map sid | sid in Sessions(c, userID, now) && sid !in fields :: Sessions(c, userID, now)[sid]) == map[];
      assert Next(lives, s, step).threads[step.id] == ListLoop(userID, purpose, fields, map[]);
      hide Sessions, Alive, TouchedHash;
    } else {
      TouchKeepsMarkers(c, s.cache, IndexKey(userID), if t.ListDrop? then t.sid else "", userID, now);
      hide Sessions, Alive, IndexOf, Verdict, DelField;
    }
  }

  lemma {:induction false} ListingAlone(lives: Lives, c: SessionCache, s: State, steps: seq<Step>, id: nat,
                                        userID: int, purpose: Purpose, now: int)
    requires Interleaving(lives, s, steps) && Alone(steps, id, now) && AloneAt(c, s, id, userID, purpose, now)
    ensures AloneAt(c, After(lives, s, steps), id, userID, purpose, now)
    decreases |steps|
  {
    hide AloneAt, Enabled, Next;
    if steps == [] {
    } else {
      StepAlone(lives, c, s, steps[0], userID, purpose, now);
      ListingAlone(lives, c, Next(lives, s, steps[0]), steps[1..], id, userID, purpose, now);
    }
  }

  /** A listing that runs alone shows exactly the live sessions. */
  lemma ListedAlone(lives: Lives, s: State, steps: seq<Step>, id: nat, userID: int, now: int)
    requires Interleaving(lives, s, steps) && Alone(steps, id, now)
    requires id in s.threads && s.threads[id] == ListStart(userID, ListOnly)
    requires id in After(lives, s, steps).threads && IsOver(After(lives, s, steps).threads[id])
    ensures After(lives, s, steps).threads[id] == Listed(userID, Sessions(s.cache, userID, now))
  {
    ListingAlone(lives, s.cache, s, steps, id, userID, ListOnly, now);
  }

  /** A call that is over makes no step. */
  lemma OverStays(lives: Lives, s: State, steps: seq<Step>, id: nat, now: int)
    requires Interleaving(lives, s, steps) && Alone(steps, id, now) && id in s.threads && IsOver(s.threads[id])
    ensures After(lives, s, steps) == s
  {
  }

  /** The first look of a validation. */
  lemma FirstLook(lives: Lives, s: State, step: Step, userID: int, kind: Kind, token: string)
    requires Enabled(s, step) && step.Advance? && s.threads[step.id] == CheckStart(userID, token, kind)
    ensures var s', stored := Next(lives, s, step), Stored(s.cache, Key0(userID, kind), token, step.now);
            && step.id in s'.threads && s'.indexOwner == s.indexOwner
            && s'.threads[step.id] == (if stored then Accepted(userID, token, kind) else ListStart(userID, Validate(token, kind)))
            && (!stored ==> AloneAt(s.cache, s', step.id, userID, Validate(token, kind), step.now))
  {
    TouchKeepsMarkers(s.cache, s.cache, Key0(userID, kind), "", userID, step.now);
    hide Alive, Stored, SameMarkers;
  }

  /** A validation that runs alone accepts the token exactly if it is valid in the cache. */
  lemma ValidatedAlone(lives: Lives, s: State, steps: seq<Step>, id: nat, userID: int, kind: Kind, token: string,
                       now: int)
    requires Interleaving(lives, s, steps) && Alone(steps, id, now)
    requires id in s.threads && s.threads[id] == CheckStart(userID, token, kind) && token != ""
    requires id in After(lives, s, steps).threads && IsOver(After(lives, s, steps).threads[id])
    ensures After(lives, s, steps).threads[id]
         == if Valid(s.cache, userID, kind, token, now) then Accepted(userID, token, kind) else Finished
  {
    hide Next, Stored, Sessions, AloneAt;
    assert steps != [];
    var s' := Next(lives, s, steps[0]);
    FirstLook(lives, s, steps[0], userID, kind, token);
    if Stored(s.cache, Key0(userID, kind), token, now) {
      OverStays(lives, s', steps[1..], id, now);
    } else {
      ListingAlone(lives, s.cache, s', steps[1..], id, userID, Validate(token, kind), now);
      AloneVerdict(s.cache, After(lives, s, steps), id, userID, kind, token, now);
    }
  }

  lemma AloneVerdict(c: SessionCache, s: State, id: nat, userID: int, kind: Kind, token: string, now: int)
    requires AloneAt(c, s, id, userID, Validate(token, kind), now) && IsOver(s.threads[id])
    ensures s.threads[id] == if SessionAccepts(c, userID, kind, token, now) then Accepted(userID, token, kind) else Finished
  {
    hide Sessions, Accepts, SameMarkers;
  }

  lemma DropMoves(lives: Lives, s: State, step: Step)
    requires Enabled(s, step) && step.Advance? && s.threads[step.id].ListDrop?
    ensures var s', t := Next(lives, s, step), s.threads[step.id];
            && step.id in s'.threads && s'.indexOwner == s.indexOwner
            && s'.threads[step.id] == ListLoop(t.userID, t.purpose, t.pending, t.sessions)
  {
    hide DelField;
  }

  lemma LoopOwner(lives: Lives, s: State, step: Step)
    requires Enabled(s, step) && step.Advance? && s.threads[step.id].ListLoop? && s.threads[step.id].pending != map[]
    ensures Next(lives, s, step).indexOwner == s.indexOwner
  {
    hide Touched, Alive, Verdict;
  }

  lemma {:induction false} LoopEnds(lives: Lives, s: State, id: nat, now: int) returns (steps: seq<Step>)
    requires id in s.threads && s.threads[id].ListLoop? && s.indexOwner == Some(id)
    ensures Interleaving(lives, s, steps) && Alone(steps, id, now)
    ensures id in After(lives, s, steps).threads && IsOver(After(lives, s, steps).threads[id])
    decreases s.threads[id].pending.Keys
  {
    var t := s.threads[id];
    if t.pending == map[] {
      var step := Advance(id, now, ("", ""), "");
      LoopMoves(lives, s, step);
      steps := [step];
      Prepend(lives, s, step, Next(lives, s, step), []);
      assert [step] + [] == [step];
    } else {
      var sid :| sid in t.pending;
      var step := Advance(id, now, ("", ""), sid);
      LoopMoves(lives, s, step);
      LoopOwner(lives, s, step);
      var s' := Next(lives, s, step);
      hide Next, Verdict, Alive;
      if s'.threads[id].ListLoop? {
        var rest := LoopEnds(lives, s', id, now);
        Prepend(lives, s, step, s', rest);
        steps := [step] + rest;
      } else {
        DropMoves(lives, s', step);
        var s'' := Next(lives, s', step);
        var rest := LoopEnds(lives, s'', id, now);
        Prepend(lives, s', step, s'', rest);
        Prepend(lives, s, step, s', [step] + rest);
        steps := [step] + ([step] + rest);
      }
    }
  }

  lemma StartMoves(lives: Lives, s: State, step: Step)
    requires Enabled(s, step) && step.Advance? && s.threads[step.id].ListStart?
    ensures var s' := Next(lives, s, step);
            step.id in s'.threads && s'.threads[step.id].ListLoop? && s'.indexOwner == Some(step.id)
  {
    hide TouchedHash, Fields;
  }

  /** With the index free, a validation can always run to its end alone. */
  lemma ValidationEnds(lives: Lives, s: State, id: nat, userID: int, kind: Kind, token: string,
                       now: int) returns (steps: seq<Step>)
    requires id in s.threads && s.threads[id] == CheckStart(userID, token, kind) && token != "" && IndexFree(s)
    ensures Interleaving(lives, s, steps) && Alone(steps, id, now)
    ensures id in After(lives, s, steps).threads
    ensures After(lives, s, steps).threads[id]
         == if Valid(s.cache, userID, kind, token, now) then Accepted(userID, token, kind) else Finished
  {
    var step := Advance(id, now, ("", ""), "");
    var s' := Next(lives, s, step);
    FirstLook(lives, s, step, userID, kind, token);
    assert IndexFree(s');
    hide Next, AloneAt, Stored, Valid;
    if IsOver(s'.threads[id]) {
      Prepend(lives, s, step, s', []);
      steps := [step] + [];
    } else {
      StartMoves(lives, s', step);
      var rest := LoopEnds(lives, Next(lives, s', step), id, now);
      Prepend(lives, s', step, Next(lives, s', step), rest);
      Prepend(lives, s, step, s', [step] + rest);
      steps := [step] + ([step] + rest);
    }
    ValidatedAlone(lives, s, steps, id, userID, kind, token, now);
  }
}
