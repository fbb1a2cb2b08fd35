/**
 The markers of interleaved token-manager calls (auth/data/user_token.go). A session's tokens count only
 while its marker is alive, and calls in flight set, extend, look at and delete that marker in any order.
 What is left of marker and record follows from the steps alone.
 */
module SessionMarkers {
  import opened Wrappers
  import opened MemoryCache
  import opened SessionTokens
  import opened SessionProtocol
  import opened SessionOverlap

  /** The call that saved the session's record last, and what it saved. */
  datatype Save = Save(id: nat, record: TokenSession)

  /**
   What the steps so far have made of a session's marker and record: whether the marker is there, the deadline
   the last login or extension gave it and the call that did, whether a record is stored, and its last save.
   */
  datatype Mark = Mark(present: bool, due: Option<int>, setBy: Option<nat>, stored: bool, saved: Option<Save>)

  const NO_MARK := Mark(false, None, None, false, None)

  /** Looking at a marker past its deadline deletes it. */
  function Looked(m: Mark, now: int): Mark {
    m.(present := m.present && !Past(m.due, now))
  }

  /** The record a saving step saves. */
  function SavedBy(lives: Lives, s: State, step: Step): TokenSession
    requires step.Advance? && step.id in s.threads && (s.threads[step.id].LoginSave? || s.threads[step.id].RotateSave?)
  {
    if s.threads[step.id].LoginSave? then s.threads[step.id].record
    else Saved(lives, s, step.id, step.tokens.0, step.now)
  }

  function LatestOf(record: TokenSession): int {
    MaxInt(record.accessExpiresAt, record.refreshExpiresAt)
  }

  function FollowMark(lives: Lives, s: State, step: Step, m: Mark, userID: int, sessionID: string): Mark
    requires Enabled(s, step)
  {
    if step.Spawn? then m
    else if Saves(s, step, userID, sessionID) then m.(stored := true, saved := Some(Save(step.id, SavedBy(lives, s, step))))
    else FollowCall(lives, s.threads[step.id], step, m, userID, sessionID)
  }

  /** What a step that saves nothing of the session does to its marker and record. */
  function FollowCall(lives: Lives, t: Thread, step: Step, m: Mark, userID: int, sessionID: string): Mark
    requires step.Advance?
  {
    match t
    case LoginStart(user, sid) =>
      if (user, sid) == (userID, sessionID) then
        m.(present := true, due := Expiration(MaxInt(lives.access, lives.refresh), step.now), setBy := Some(step.id))
      else m
    case RotateExtend(user, sid, record) =>
      if (user, sid) == (userID, sessionID) then
        m.(due := Expiration(LatestOf(record) - step.now, step.now), setBy := Some(step.id))
      else m
    case RotateStart(user, sid, _) => if (user, sid) == (userID, sessionID) then Looked(m, step.now) else m
    case ListLoop(user, _, pending, _) =>
      if pending != map[] && (user, step.sid) == (userID, sessionID) then Looked(m, step.now) else m
    case RevokeStart(user, sid) => if (user, sid) == (userID, sessionID) then m.(present := false) else m
    case RevokeIndex(user, sid) => if (user, sid) == (userID, sessionID) then m.(stored := false) else m
    case ListDrop(user, _, sid, _, _) => if (user, sid) == (userID, sessionID) then m.(stored := false) else m
    case _ => m
  }

  function MarkOf(lives: Lives, s: State, steps: seq<Step>, m: Mark, userID: int, sessionID: string): Mark
    requires Interleaving(lives, s, steps)
    decreases |steps|
  {
    if steps == [] then m
    else MarkOf(lives, Next(lives, s, steps[0]), steps[1..], FollowMark(lives, s, steps[0], m, userID, sessionID), userID, sessionID)
  }

  predicate IsStored(c: SessionCache, userID: int, sessionID: string) {
    IndexKey(userID) in c.mapItems && sessionID in c.mapItems[IndexKey(userID)].fields
  }

  // ---------- the cache shows it ----------

  predicate ShowsMarker(c: SessionCache, m: Mark, userID: int, sessionID: string) {
    var marker := MarkerKey(userID, sessionID);
    && (marker in c.strItems <==> m.present)
    && (m.present ==> c.strItems[marker].expired == m.due)
  }

  predicate ShowsRecord(c: SessionCache, m: Mark, userID: int, sessionID: string) {
    && (IsStored(c, userID, sessionID) <==> m.stored)
    && (m.stored ==> m.saved.Some? && c.mapItems[IndexKey(userID)].fields[sessionID] == m.saved.value.record)
  }

  /** An operation on a string shows on the marker exactly if the string is the marker. */
  lemma StringOpsShow(c: SessionCache, key: Key, value: string, life: int, now: int, m: Mark, userID: int,
                      sessionID: string)
    requires ShowsMarker(c, m, userID, sessionID)
    ensures var own, due := key == MarkerKey(userID, sessionID), Expiration(life, now);
            && ShowsMarker(SetStr(c, key, value, life, now), if own then m.(present := true, due := due) else m, userID, sessionID)
            && ShowsMarker(ExpireStr(c, key, life, now), if own then m.(due := due) else m, userID, sessionID)
            && ShowsMarker(DelStr(c, key), if own then m.(present := false) else m, userID, sessionID)
            && ShowsMarker(Touched(c, key, now), if own then Looked(m, now) else m, userID, sessionID)
  {
  }

  lemma SameStringsShow(c: SessionCache, c': SessionCache, m: Mark, userID: int, sessionID: string)
    requires ShowsMarker(c, m, userID, sessionID) && c'.strItems == c.strItems
    ensures ShowsMarker(c', m, userID, sessionID)
  {
  }

  lemma NextShowsMarker(lives: Lives, s: State, step: Step, m: Mark, userID: int, sessionID: string)
    requires Enabled(s, step) && ShowsMarker(s.cache, m, userID, sessionID)
    ensures ShowsMarker(Next(lives, s, step).cache, FollowMark(lives, s, step, m, userID, sessionID), userID, sessionID)
  {
    if step.Advance? {
      var c, now, t := s.cache, step.now, s.threads[step.id];
      hide ShowsMarker, NewSession, Verdict, Accepts, RotatedRecord, Saved, SavedBy;
      hide SetStr, DelStr, ExpireStr, Touched, Alive, Fields, Expiration, Looked;
      match t
      case LoginStart(u, sid) =>
        StringOpsShow(c, MarkerKey(u, sid), "1", MaxInt(lives.access, lives.refresh), now, m, userID, sessionID);
      case RotateStart(u, sid, _) => StringOpsShow(c, MarkerKey(u, sid), "", 0, now, m, userID, sessionID);
      case RotateExtend(u, sid, record) =>
        StringOpsShow(c, MarkerKey(u, sid), "", LatestOf(record) - now, now, m, userID, sessionID);
      case RevokeStart(u, sid) => StringOpsShow(c, MarkerKey(u, sid), "", 0, now, m, userID, sessionID);
      case SessionlessStart(u, kind) =>
        StringOpsShow(c, Key0(u, kind), step.tokens.0, LifeOf(lives, kind), now, m, userID, sessionID);
      case CheckStart(u, _, kind) => StringOpsShow(c, Key0(u, kind), "", 0, now, m, userID, sessionID);
      case ListLoop(u, _, pending, _) => StringOpsShow(c, MarkerKey(u, step.sid), "", 0, now, m, userID, sessionID);
      case _ => HashStepShows(lives, s, step, m, userID, sessionID);
    }
  }

  /** The steps that touch the index change no string. */
  lemma HashStepShows(lives: Lives, s: State, step: Step, m: Mark, userID: int, sessionID: string)
    requires Enabled(s, step) && step.Advance? && ShowsMarker(s.cache, m, userID, sessionID)
    requires var t := s.threads[step.id];
             t.LoginSave? || t.RotateRead? || t.RotateSave? || t.RevokeIndex? || t.ListStart? || t.ListDrop?
    ensures ShowsMarker(Next(lives, s, step).cache, FollowMark(lives, s, step, m, userID, sessionID), userID, sessionID)
  {
    hide NewSession, Verdict, RotatedRecord, Saved, SavedBy;
  }

  lemma HashOpsShow(c: SessionCache, user: int, sid: string, save: Save, now: int, m: Mark, userID: int,
                    sessionID: string)
    requires ShowsRecord(c, m, userID, sessionID) && HashesStay(c)
    ensures var own, index := (user, sid) == (userID, sessionID), IndexKey(user);
            && ShowsRecord(SetField(c, index, sid, save.record, now),
                           if own then m.(stored := true, saved := Some(save)) else m, userID, sessionID)
            && ShowsRecord(DelField(c, index, sid, now), if own then m.(stored := false) else m, userID, sessionID)
            && TouchedHash(c, index, now) == c
  {
  }

  lemma NextShowsRecord(lives: Lives, s: State, step: Step, m: Mark, userID: int, sessionID: string)
    requires Own(s) && HashesStay(s.cache) && Enabled(s, step) && ShowsRecord(s.cache, m, userID, sessionID)
    ensures ShowsRecord(Next(lives, s, step).cache, FollowMark(lives, s, step, m, userID, sessionID), userID, sessionID)
  {
    if step.Advance? {
      var c, now, t := s.cache, step.now, s.threads[step.id];
      assert OwnThread(s.issued, t);
      var save := if t.LoginSave? || t.RotateSave? then Save(step.id, SavedBy(lives, s, step)) else Save(0, LOGIN);
      assert t.RotateSave? ==> save.record.sessionID == t.sessionID;
      hide Own, OwnThread, ShowsRecord, HashesStay, NewSession, Verdict, Accepts, RotatedRecord, Saved;
      hide SetField, DelField, TouchedHash, Alive, Fields, Expiration, Looked;
      match t
      case LoginSave(u, record) => HashOpsShow(c, u, record.sessionID, save, now, m, userID, sessionID);
      case RotateRead(u, _, _) => HashOpsShow(c, u, "", save, now, m, userID, sessionID);
      case RotateSave(u, sid, _, _) =>
        SavedIs(lives, s, step.id, step.tokens.0, now);
        HashOpsShow(c, u, sid, save, now, m, userID, sessionID);
      case RevokeIndex(u, sid) => HashOpsShow(c, u, sid, save, now, m, userID, sessionID);
      case ListStart(u, _) => HashOpsShow(c, u, "", save, now, m, userID, sessionID);
      case ListDrop(u, _, dropped, _, _) => HashOpsShow(c, u, dropped, save, now, m, userID, sessionID);
      case _ => StringStepShows(lives, s, step, m, userID, sessionID);
    }
  }

  /** The steps that touch strings change no record. */
  lemma StringStepShows(lives: Lives, s: State, step: Step, m: Mark, userID: int, sessionID: string)
    requires Enabled(s, step) && step.Advance? && ShowsRecord(s.cache, m, userID, sessionID)
    requires var t := s.threads[step.id];
             !(t.LoginSave? || t.RotateRead? || t.RotateSave? || t.RevokeIndex? || t.ListStart? || t.ListDrop?)
    ensures ShowsRecord(Next(lives, s, step).cache, FollowMark(lives, s, step, m, userID, sessionID), userID, sessionID)
  {
    hide NewSession, Verdict, RotatedRecord, Saved, SavedBy;
  }

  // ---------- who set the marker and who saved ----------

  /** The marker lasts until the later of the record's two expiries, or has no deadline. */
  predicate Covers(due: Option<int>, record: TokenSession) {
    due.None? || due.value == LatestOf(record)
  }

  /** Where the call that set the marker stands: a login before its save, with the record the marker covers, or its end. */
  predicate AfterSetting(t: Thread, due: Option<int>, userID: int, sessionID: string) {
    t.Finished? || (t.LoginSave? && t.userID == userID && t.record.sessionID == sessionID && Covers(due, t.record))
  }

  /** Where the call that saved last stands: a rotation before its extension, with the record it saved, or its end. */
  predicate AfterSaving(t: Thread, record: TokenSession, userID: int, sessionID: string) {
    t.Finished? || t == RotateExtend(userID, sessionID, record)
  }

  /** The call that saved last has also been the last one to set the marker. */
  predicate SameCall(m: Mark) {
    m.setBy.Some? && m.saved.Some? && m.setBy.value == m.saved.value.id
  }

  predicate Linked(s: State, m: Mark, userID: int, sessionID: string) {
    && (m.setBy.Some? ==> m.setBy.value in s.threads && AfterSetting(s.threads[m.setBy.value], m.due, userID, sessionID))
    && (m.saved.Some? ==>
          m.saved.value.id in s.threads && AfterSaving(s.threads[m.saved.value.id], m.saved.value.record, userID, sessionID))
    && (SameCall(m) ==> Covers(m.due, m.saved.value.record))
  }

  predicate AtExtend(t: Thread, userID: int, sessionID: string) {
    t.RotateExtend? && t.userID == userID && t.sessionID == sessionID
  }

  predicate AtLoginSave(t: Thread, userID: int, sessionID: string) {
    t.LoginSave? && t.userID == userID && t.record.sessionID == sessionID
  }

  /** Where the steps that set a session's marker or save its record take their calls. */
  lemma CallMoves(lives: Lives, s: State, step: Step, userID: int, sessionID: string)
    requires Enabled(s, step) && step.Advance?
    ensures var s', t := Next(lives, s, step), s.threads[step.id];
            && step.id in s'.threads && s'.threads == s.threads[step.id := s'.threads[step.id]]
            && var t' := s'.threads[step.id];
               && (AtSave(t, userID, sessionID) ==> t' == RotateExtend(userID, sessionID, SavedBy(lives, s, step)))
               && (AtExtend(t, userID, sessionID) || AtLoginSave(t, userID, sessionID) ==> t'.Finished?)
               && (t == LoginStart(userID, sessionID) ==>
                     && AtLoginSave(t', userID, sessionID)
                     && LatestOf(t'.record) == MaxInt(lives.access, lives.refresh) + step.now)
  {
    hide Verdict, Accepts, RotatedRecord, SetStr, SetField, DelField, ExpireStr, DelStr, Touched, TouchedHash, Alive, Fields;
  }

  /** No other step changes the deadline, or who set the marker, or who saved. */
  lemma MarkMoves(lives: Lives, s: State, step: Step, m: Mark, userID: int, sessionID: string)
    requires Enabled(s, step)
    ensures var m' := FollowMark(lives, s, step, m, userID, sessionID);
            if step.Spawn? then m' == m
            else
              var t := s.threads[step.id];
              if Saves(s, step, userID, sessionID) then
                m'.setBy == m.setBy && m'.due == m.due && m'.saved == Some(Save(step.id, SavedBy(lives, s, step)))
              else if AtExtend(t, userID, sessionID) then
                && m'.setBy == Some(step.id) && m'.saved == m.saved
                && m'.due == Expiration(LatestOf(t.record) - step.now, step.now)
              else if t == LoginStart(userID, sessionID) then
                && m'.setBy == Some(step.id) && m'.saved == m.saved
                && m'.due == Expiration(MaxInt(lives.access, lives.refresh), step.now)
              else m'.setBy == m.setBy && m'.due == m.due && m'.saved == m.saved
  {
    hide Saved;
  }

  /** A step leaves both calls where they stand, unless it is theirs or takes over from them. */
  lemma OthersStayLinked(lives: Lives, s: State, step: Step, m: Mark, userID: int, sessionID: string)
    requires Enabled(s, step) && Linked(s, m, userID, sessionID)
    ensures var s', m' := Next(lives, s, step), FollowMark(lives, s, step, m, userID, sessionID);
            && (m'.setBy.Some? && m'.setBy.value != step.id ==>
                  m'.setBy == m.setBy && m'.due == m.due && m'.setBy.value in s.threads
                  && m'.setBy.value in s'.threads && s'.threads[m'.setBy.value] == s.threads[m'.setBy.value])
            && (m'.saved.Some? && m'.saved.value.id != step.id ==>
                  m'.saved == m.saved && m'.saved.value.id in s.threads
                  && m'.saved.value.id in s'.threads && s'.threads[m'.saved.value.id] == s.threads[m'.saved.value.id])
  {
    if m.setBy.Some? && m.setBy.value != step.id { OthersStand(lives, s, step, m.setBy.value); }
    if m.saved.Some? && m.saved.value.id != step.id { OthersStand(lives, s, step, m.saved.value.id); }
    hide Next;
  }

  /** A call that sets the marker comes to stand where it should, and so does one that had set it. */
  lemma SetterLinks(lives: Lives, s: State, step: Step, m: Mark, userID: int, sessionID: string)
    requires Enabled(s, step) && Linked(s, m, userID, sessionID)
    ensures var s', m' := Next(lives, s, step), FollowMark(lives, s, step, m, userID, sessionID);
            m'.setBy == Some(step.id) ==>
              step.id in s'.threads && AfterSetting(s'.threads[step.id], m'.due, userID, sessionID)
  {
    if step.Advance? { CallMoves(lives, s, step, userID, sessionID); }
    MarkMoves(lives, s, step, m, userID, sessionID);
    hide Next, FollowMark, SavedBy;
  }

  /** So does a call that saves, or had saved last. */
  lemma SaverLinks(lives: Lives, s: State, step: Step, m: Mark, userID: int, sessionID: string)
    requires Enabled(s, step) && Linked(s, m, userID, sessionID)
    ensures var s', m' := Next(lives, s, step), FollowMark(lives, s, step, m, userID, sessionID);
            m'.saved.Some? && m'.saved.value.id == step.id ==>
              step.id in s'.threads && AfterSaving(s'.threads[step.id], m'.saved.value.record, userID, sessionID)
  {
    if step.Advance? { CallMoves(lives, s, step, userID, sessionID); }
    MarkMoves(lives, s, step, m, userID, sessionID);
    hide Next, FollowMark, SavedBy;
  }

  /** A call that has both set the marker and saved last has done so for one and the same record. */
  lemma StepCovers(lives: Lives, s: State, step: Step, m: Mark, userID: int, sessionID: string)
    requires Enabled(s, step) && Linked(s, m, userID, sessionID)
    ensures var m' := FollowMark(lives, s, step, m, userID, sessionID);
            SameCall(m') ==> Covers(m'.due, m'.saved.value.record)
  {
    MarkMoves(lives, s, step, m, userID, sessionID);
    hide FollowMark, Saved;
  }

  lemma NextKeepsLinked(lives: Lives, s: State, step: Step, m: Mark, userID: int, sessionID: string)
    requires Enabled(s, step) && Linked(s, m, userID, sessionID)
    ensures Linked(Next(lives, s, step), FollowMark(lives, s, step, m, userID, sessionID), userID, sessionID)
  {
    OthersStayLinked(lives, s, step, m, userID, sessionID);
    SetterLinks(lives, s, step, m, userID, sessionID);
    SaverLinks(lives, s, step, m, userID, sessionID);
    StepCovers(lives, s, step, m, userID, sessionID);
    hide Next, FollowMark, AfterSetting, AfterSaving, Covers;
  }

  // ---------- the law ----------

  ghost predicate Marked(s: State, m: Mark, userID: int, sessionID: string) {
    && HashesStay(s.cache)
    && ShowsMarker(s.cache, m, userID, sessionID) && ShowsRecord(s.cache, m, userID, sessionID)
    && Linked(s, m, userID, sessionID)
  }

  lemma {:induction false} RunMarks(lives: Lives, s: State, steps: seq<Step>, m: Mark, userID: int, sessionID: string)
    requires Own(s) && Marked(s, m, userID, sessionID) && Interleaving(lives, s, steps)
    ensures Marked(After(lives, s, steps), MarkOf(lives, s, steps, m, userID, sessionID), userID, sessionID)
    decreases |steps|
  {
    hide Own, HashesStay, ShowsMarker, ShowsRecord, Linked, Enabled, Next, FollowMark;
    if steps == [] {
    } else {
      NextKeepsOwn(lives, s, steps[0]);
      NextKeepsHashes(lives, s, steps[0]);
      NextShowsMarker(lives, s, steps[0], m, userID, sessionID);
      NextShowsRecord(lives, s, steps[0], m, userID, sessionID);
      NextKeepsLinked(lives, s, steps[0], m, userID, sessionID);
      RunMarks(lives, Next(lives, s, steps[0]), steps[1..], FollowMark(lives, s, steps[0], m, userID, sessionID),
               userID, sessionID);
    }
  }

  /**
   In every interleaving the steps alone decide when a session's marker is alive: it is there from a login on
   until a revocation, or a look at it after its deadline, and its deadline is that of the last login or
   extension. The record stored is the one saved last. If the call that saved it is also the one that set the
   marker last, the marker lasts exactly until the later of the record's two expiries, or for good.
   */
  lemma MarkerLaw(lives: Lives, steps: seq<Step>, userID: int, sessionID: string)
    requires Interleaving(lives, INITIAL, steps)
    ensures var c, m := After(lives, INITIAL, steps).cache, MarkOf(lives, INITIAL, steps, NO_MARK, userID, sessionID);
            && (forall t :: Alive(c, MarkerKey(userID, sessionID), t) <==> m.present && !Past(m.due, t))
            && (IsStored(c, userID, sessionID) <==> m.stored)
            && (m.stored ==> m.saved.Some? && c.mapItems[IndexKey(userID)].fields[sessionID] == m.saved.value.record)
            && (SameCall(m) ==> Covers(m.due, m.saved.value.record))
  {
    RunMarks(lives, INITIAL, steps, NO_MARK, userID, sessionID);
    hide Interleaving, After, MarkOf;
  }

  // ---------- extensions in the order of the saves ----------

  /** Only the call that saved last extends the marker, and a login saves only while it has set the marker last. */
  predicate InTurn(s: State, step: Step, m: Mark, userID: int, sessionID: string) {
    step.Advance? && step.id in s.threads ==>
      && (AtExtend(s.threads[step.id], userID, sessionID) ==> m.saved.Some? && m.saved.value.id == step.id)
      && (AtLoginSave(s.threads[step.id], userID, sessionID) ==> m.setBy == Some(step.id))
  }

  predicate AllInTurn(lives: Lives, s: State, steps: seq<Step>, m: Mark, userID: int, sessionID: string)
    requires Interleaving(lives, s, steps)
    decreases |steps|
  {
    steps == [] ||
    (InTurn(s, steps[0], m, userID, sessionID)
     && AllInTurn(lives, Next(lives, s, steps[0]), steps[1..], FollowMark(lives, s, steps[0], m, userID, sessionID),
                  userID, sessionID))
  }

  /** Some call is between setting the marker and saving, or between saving and extending. */
  predicate Pending(s: State, userID: int, sessionID: string) {
    exists id :: id in s.threads && (AtExtend(s.threads[id], userID, sessionID) || AtLoginSave(s.threads[id], userID, sessionID))
  }

  /** Unless the same call saved and set the marker last, one of the two is still on its way. */
  predicate OnItsWay(s: State, m: Mark, userID: int, sessionID: string) {
    m.saved.None? || SameCall(m)
    || (m.saved.value.id in s.threads && AtExtend(s.threads[m.saved.value.id], userID, sessionID))
    || (m.setBy.Some? && m.setBy.value in s.threads && AtLoginSave(s.threads[m.setBy.value], userID, sessionID))
  }

  lemma NextOnItsWay(lives: Lives, s: State, step: Step, m: Mark, userID: int, sessionID: string)
    requires Enabled(s, step) && Linked(s, m, userID, sessionID)
    requires OnItsWay(s, m, userID, sessionID) && InTurn(s, step, m, userID, sessionID)
    ensures OnItsWay(Next(lives, s, step), FollowMark(lives, s, step, m, userID, sessionID), userID, sessionID)
  {
    if step.Advance? { CallMoves(lives, s, step, userID, sessionID); }
    MarkMoves(lives, s, step, m, userID, sessionID);
    OthersStayLinked(lives, s, step, m, userID, sessionID);
    hide Next, FollowMark, SavedBy;
  }

  lemma {:induction false} RunInTurn(lives: Lives, s: State, steps: seq<Step>, m: Mark, userID: int, sessionID: string)
    requires Linked(s, m, userID, sessionID) && OnItsWay(s, m, userID, sessionID)
    requires Interleaving(lives, s, steps) && AllInTurn(lives, s, steps, m, userID, sessionID)
    ensures OnItsWay(After(lives, s, steps), MarkOf(lives, s, steps, m, userID, sessionID), userID, sessionID)
    decreases |steps|
  {
    hide Linked, OnItsWay, InTurn, Enabled, Next, FollowMark;
    if steps == [] {
    } else {
      NextKeepsLinked(lives, s, steps[0], m, userID, sessionID);
      NextOnItsWay(lives, s, steps[0], m, userID, sessionID);
      RunInTurn(lives, Next(lives, s, steps[0]), steps[1..], FollowMark(lives, s, steps[0], m, userID, sessionID),
                userID, sessionID);
    }
  }

  /** If the extensions of a session come in the order of its saves, the call that saved last has set the marker last. */
  lemma InTurnSettles(lives: Lives, steps: seq<Step>, userID: int, sessionID: string)
    requires Interleaving(lives, INITIAL, steps) && AllInTurn(lives, INITIAL, steps, NO_MARK, userID, sessionID)
    requires !Pending(After(lives, INITIAL, steps), userID, sessionID)
    ensures var m := MarkOf(lives, INITIAL, steps, NO_MARK, userID, sessionID);
            m.saved.Some? ==> SameCall(m) && Covers(m.due, m.saved.value.record)
  {
    RunInTurn(lives, INITIAL, steps, NO_MARK, userID, sessionID);
    MarkerLaw(lives, steps, userID, sessionID);
    hide Interleaving, After, MarkOf, AllInTurn;
  }
}
