/**
 Login sessions and their tokens (auth/data/user_token.go): the stored record, its rotation, and
 what the cache contents say about which tokens are valid.

 Records are stored as values, not as JSON text; token texts and cache keys are abstract, and the
 keys of different users and sessions are different by construction.
 */
module SessionTokens {
  import opened MemoryCache

  /** How long a rotated access token stays valid: one minute in nanoseconds. */
  const GRACE: int := 60_000_000_000

  datatype Key =
    | AccessKey(userID: int)
    | RefreshKey(userID: int)
    | MarkerKey(userID: int, sessionID: string)
    | IndexKey(userID: int)

  datatype TokenSession = TokenSession(
    sessionID: string,
    accessToken: string,
    refreshToken: string,
    accessExpiresAt: int,
    refreshExpiresAt: int,
    previousAccessToken: string,
    previousAccessExpiresAt: int)

  type SessionCache = Cache<Key, TokenSession>

  function MinInt(a: int, b: int): int { if a <= b then a else b }

  function MaxInt(a: int, b: int): int { if a >= b then a else b }

  function NewSession(sessionID: string, access: string, refresh: string, accessLife: int, refreshLife: int,
                      now: int): TokenSession {
    TokenSession(sessionID, access, refresh, now + accessLife, now + refreshLife, "", 0)
  }

  /** A new access token; the old one is kept for the grace period, never beyond its own expiry. */
  function RotateAccess(s: TokenSession, token: string, life: int, now: int): TokenSession {
    var kept :=
      if s.accessToken != "" && s.accessToken != token then
        s.(previousAccessToken := s.accessToken, previousAccessExpiresAt := MinInt(s.accessExpiresAt, now + GRACE))
      else s;
    kept.(accessToken := token, accessExpiresAt := now + life)
  }

  function RotateRefresh(s: TokenSession, token: string, life: int, now: int): TokenSession {
    s.(refreshToken := token, refreshExpiresAt := now + life)
  }

  /** The old access token stays for a minute, but one that is missing or rotated to itself is not kept. */
  lemma Predecessor(s: TokenSession, token: string, life: int, now: int)
    ensures var rotated := RotateAccess(s, token, life, now);
            && rotated.accessToken == token && rotated.accessExpiresAt == now + life
            && (rotated.previousAccessToken, rotated.previousAccessExpiresAt)
                 == if s.accessToken in {"", token} then (s.previousAccessToken, s.previousAccessExpiresAt)
                    else (s.accessToken, MinInt(s.accessExpiresAt, now + 60_000_000_000))
  {
  }

  /** The record accepts an access token: the current one, or the previous one within its grace period. */
  predicate AcceptsAccess(s: TokenSession, token: string, now: int) {
    || (s.accessToken == token && now < s.accessExpiresAt)
    || (s.previousAccessToken == token && now < s.previousAccessExpiresAt)
  }

  predicate AcceptsRefresh(s: TokenSession, token: string, now: int) {
    s.refreshToken == token && now < s.refreshExpiresAt
  }

  /** A token of either kind. */
  datatype Kind = Access | Refresh

  /** How long the two kinds of token live. */
  datatype Lives = Lives(access: int, refresh: int)

  function LifeOf(lives: Lives, kind: Kind): int {
    if kind.Access? then lives.access else lives.refresh
  }

  /** Where a user's token that belongs to no session is stored. */
  function Key0(userID: int, kind: Kind): Key {
    if kind.Access? then AccessKey(userID) else RefreshKey(userID)
  }

  predicate Accepts(record: TokenSession, token: string, kind: Kind, now: int) {
    if kind.Access? then AcceptsAccess(record, token, now) else AcceptsRefresh(record, token, now)
  }

  function RotatedRecord(lives: Lives, record: TokenSession, kind: Kind, token: string, now: int): TokenSession {
    if kind.Access? then RotateAccess(record, token, lives.access, now) else RotateRefresh(record, token, lives.refresh, now)
  }

  /** To whom a token was issued. */
  datatype Owner = OfSession(userID: int, sessionID: string) | Sessionless(userID: int)

  predicate Owned(issued: map<string, Owner>, token: string, owner: Owner) {
    token in issued && issued[token] == owner
  }

  // ---------- validity from the cache contents ----------

  /** The user's sessions whose marker is alive. */
  function Sessions(c: SessionCache, userID: int, now: int): map<string, TokenSession> {
    match Fields(c, IndexKey(userID), now)
    case None => map[]
    case Some(fields) => map sid | sid in fields && Alive(c, MarkerKey(userID, sid), now) :: fields[sid]
  }

  predicate Stored(c: SessionCache, key: Key, token: string, now: int) {
    Alive(c, key, now) && c.strItems[key].value == token
  }

  /** What a validation answers: stored for the user, or accepted by a live session. */
  predicate Valid(c: SessionCache, userID: int, kind: Kind, token: string, now: int) {
    && token != ""
    && (|| Stored(c, Key0(userID, kind), token, now)
        || SessionAccepts(c, userID, kind, token, now))
  }

  predicate SessionAccepts(c: SessionCache, userID: int, kind: Kind, token: string, now: int) {
    exists sid :: sid in Sessions(c, userID, now) && Accepts(Sessions(c, userID, now)[sid], token, kind, now)
  }

  predicate Unexpired(record: TokenSession, kind: Kind, now: int) {
    now < if kind.Access? then record.accessExpiresAt else record.refreshExpiresAt
  }

  /** The user has some token of the kind: the stored one, or an unexpired one in a live session. */
  predicate Exist(c: SessionCache, userID: int, kind: Kind, now: int) {
    || Alive(c, Key0(userID, kind), now)
    || exists sid :: sid in Sessions(c, userID, now) && Unexpired(Sessions(c, userID, now)[sid], kind, now)
  }

  /**
   What a validation answers when time passes between its two looks at the user's own key: a stored token
   that has expired meanwhile still counts if any session of the user has an unexpired token of the kind.
   */
  predicate Validated(c: SessionCache, userID: int, kind: Kind, token: string, now: int, later: int) {
    && token != ""
    && if Stored(c, Key0(userID, kind), token, now) then Exist(c, userID, kind, later)
       else SessionAccepts(c, userID, kind, token, later)
  }

  ghost predicate NothingValid(c: SessionCache, userID: int) {
    forall kind, token, t :: !Valid(c, userID, kind, token, t)
  }

  /** No hash has a deadline; no operation of the token manager ever gives one. */
  ghost predicate HashesStay(c: SessionCache) {
    forall key :: key in c.mapItems ==> c.mapItems[key].expired.None?
  }

  /** From `now` on no session but one is different. */
  ghost predicate OnlySession(c: SessionCache, c': SessionCache, userID: int, sessionID: string, now: int) {
    forall user, other, t :: t >= now && (user, other) != (userID, sessionID) ==> SameSession(c, c', user, other, t)
  }

  predicate SameSession(c: SessionCache, c': SessionCache, userID: int, sessionID: string, now: int) {
    var before, after := Sessions(c, userID, now), Sessions(c', userID, now);
    if sessionID in before then sessionID in after && after[sessionID] == before[sessionID] else sessionID !in after
  }

  /** From `now` on the two caches hold the same live strings and the same live sessions. */
  ghost predicate SameFrom(c: SessionCache, c': SessionCache, now: int) {
    && (forall key, t :: t >= now ==> Alive(c, key, t) == Alive(c', key, t))
    && (forall key, t :: t >= now && Alive(c, key, t) ==> c.strItems[key] == c'.strItems[key])
    && (forall userID, t :: t >= now ==> Sessions(c, userID, t) == Sessions(c', userID, t))
  }

  /** The cache after listing a user's sessions: dead markers are deleted and their index entries cleaned up. */
  function Cleaned(c: SessionCache, userID: int, now: int): SessionCache {
    var touched := TouchedHash(c, IndexKey(userID), now);
    match Fields(c, IndexKey(userID), now)
    case None => touched
    case Some(fields) => CleanedOf(c, userID, fields.Keys, now)
  }

  /** The same clean-up restricted to some of the index entries. */
  function CleanedOf(c: SessionCache, userID: int, sids: set<string>, now: int): SessionCache {
    var index := IndexKey(userID);
    if index !in c.mapItems then c
    else
      var fields := c.mapItems[index].fields;
      Cache(map key | key in c.strItems && !(key.MarkerKey? && key.userID == userID && key.sessionID in sids
                                             && Past(c.strItems[key].expired, now)) :: c.strItems[key],
            c.mapItems[index := c.mapItems[index].(
              fields := map sid | sid in fields && (sid !in sids || Alive(c, MarkerKey(userID, sid), now)) :: fields[sid])])
  }

  /** Clean-up is unobservable. */
  lemma CleanedSame(c: SessionCache, userID: int, now: int)
    ensures SameFrom(c, Cleaned(c, userID, now), now)
  {
  }

  lemma CleanedNothing(c: SessionCache, userID: int, now: int)
    ensures CleanedOf(c, userID, {}, now) == c
  {
    var index := IndexKey(userID);
    if index in c.mapItems {
      var r, fields := CleanedOf(c, userID, {}, now), c.mapItems[index].fields;
      assert r.mapItems[index].fields == fields;
      assert r.mapItems == c.mapItems;
      assert r.strItems == c.strItems;
    }
  }

  /** Cleaning one more entry: its marker is tested, and the entry is deleted if the marker is gone. */
  lemma CleanedOneMore(c: SessionCache, userID: int, sids: set<string>, sid: string, now: int)
    requires sid !in sids && Fields(c, IndexKey(userID), now).Some?
    ensures var before := CleanedOf(c, userID, sids, now);
            && Alive(before, MarkerKey(userID, sid), now) == Alive(c, MarkerKey(userID, sid), now)
            && CleanedOf(c, userID, sids + {sid}, now) ==
                 var touched := Touched(before, MarkerKey(userID, sid), now);
                 if Alive(c, MarkerKey(userID, sid), now) then touched else DelField(touched, IndexKey(userID), sid, now)
  {
    var index, marker := IndexKey(userID), MarkerKey(userID, sid);
    var before, after := CleanedOf(c, userID, sids, now), CleanedOf(c, userID, sids + {sid}, now);
    var touched := Touched(before, marker, now);
    assert after.strItems == touched.strItems;
    var done := if Alive(c, marker, now) then touched else DelField(touched, index, sid, now);
    assert after.mapItems[index].fields == done.mapItems[index].fields;
    assert after.mapItems == done.mapItems;
  }

  // ---------- what the calls do to the cache ----------

  function LoggedIn(c: SessionCache, lives: Lives, userID: int, sessionID: string, access: string, refresh: string,
                    now: int)
    : SessionCache
  {
    if access == "" then c
    else if sessionID == "" then
      SetStr(SetStr(c, AccessKey(userID), access, lives.access, now), RefreshKey(userID), refresh, lives.refresh, now)
    else
      SetField(SetStr(c, MarkerKey(userID, sessionID), "1", MaxInt(lives.access, lives.refresh), now),
               IndexKey(userID), sessionID, NewSession(sessionID, access, refresh, lives.access, lives.refresh, now), now)
  }

  /** Looking one session up: a dead marker is deleted, and so is an expired index. */
  function LookedUp(c: SessionCache, userID: int, sessionID: string, now: int): SessionCache {
    if Alive(c, MarkerKey(userID, sessionID), now) then TouchedHash(c, IndexKey(userID), now)
    else Touched(c, MarkerKey(userID, sessionID), now)
  }

  /** A rotation saves its record, under the ID the record carries, and extends the session's marker. */
  function Renewed(c: SessionCache, userID: int, sessionID: string, record: TokenSession, now: int): SessionCache {
    ExpireStr(SetField(c, IndexKey(userID), record.sessionID, record, now), MarkerKey(userID, sessionID),
              MaxInt(record.accessExpiresAt, record.refreshExpiresAt) - now, now)
  }

  /** Whether a rotation succeeds, and the cache after it. */
  function Rotated(c: SessionCache, lives: Lives, userID: int, sessionID: string, kind: Kind, token: string, now: int)
    : (bool, SessionCache)
  {
    if sessionID == "" then
      if token == "" then (false, c) else (true, SetStr(c, Key0(userID, kind), token, LifeOf(lives, kind), now))
    else if sessionID !in Sessions(c, userID, now) || token == "" then
      (false, LookedUp(c, userID, sessionID, now))
    else
      (true, Renewed(c, userID, sessionID, RotatedRecord(lives, Sessions(c, userID, now)[sessionID], kind, token, now), now))
  }

  function Revoked(c: SessionCache, userID: int, sessionID: string, now: int): SessionCache {
    DelField(DelStr(c, MarkerKey(userID, sessionID)), IndexKey(userID), sessionID, now)
  }

  /** The cache without some of a user's sessions, markers and records. */
  function WithoutSessions(c: SessionCache, userID: int, sids: set<string>): SessionCache {
    var index := IndexKey(userID);
    Cache(map key | key in c.strItems && !(key.MarkerKey? && key.userID == userID && key.sessionID in sids) :: c.strItems[key],
          if index in c.mapItems then c.mapItems[index := c.mapItems[index].(fields := c.mapItems[index].fields - sids)]
          else c.mapItems)
  }

  /** Removing everything of a user: the live sessions one by one, then the two tokens of no session. */
  function Removed(c: SessionCache, userID: int, now: int): SessionCache {
    DelStr(DelStr(WithoutSessions(Cleaned(c, userID, now), userID, Sessions(c, userID, now).Keys), AccessKey(userID)),
           RefreshKey(userID))
  }

  /** A validation: only dead entries disappear. */
  function Checked(c: SessionCache, userID: int, kind: Kind, token: string, now: int): SessionCache {
    if token == "" || Stored(c, Key0(userID, kind), token, now) then c
    else Cleaned(Touched(c, Key0(userID, kind), now), userID, now)
  }

  /** A rotation leaves every other session, of this user and of all others, as it was. */
  lemma RotationKeepsOthers(c: SessionCache, userID: int, sessionID: string, record: TokenSession, now: int)
    requires record.sessionID == sessionID
    ensures OnlySession(c, Renewed(c, userID, sessionID, record, now), userID, sessionID, now)
  {
    forall user, other, t | t >= now && (user, other) != (userID, sessionID)
      ensures SameSession(c, Renewed(c, userID, sessionID, record, now), user, other, t)
    {
    }
  }

  /** Neither does revoking it; the revoked session itself is gone. */
  lemma RevocationKeepsOthers(c: SessionCache, userID: int, sessionID: string, now: int)
    ensures OnlySession(c, Revoked(c, userID, sessionID, now), userID, sessionID, now)
    ensures forall t :: sessionID !in Sessions(Revoked(c, userID, sessionID, now), userID, t)
  {
    forall user, other, t | t >= now && (user, other) != (userID, sessionID)
      ensures SameSession(c, Revoked(c, userID, sessionID, now), user, other, t)
    {
    }
  }

  /** A login's tokens validate until they expire, and every other session is as it was. */
  lemma LoginObserved(c: SessionCache, lives: Lives, userID: int, sessionID: string, access: string, refresh: string,
                      now: int)
    requires access != ""
    ensures var c' := LoggedIn(c, lives, userID, sessionID, access, refresh, now);
            && (sessionID != "" ==> OnlySession(c, c', userID, sessionID, now))
            && (HashesStay(c) ==>
                  && (forall t :: now <= t < now + lives.access ==> Valid(c', userID, Access, access, t))
                  && (refresh != "" ==>
                        forall t :: now <= t < now + lives.refresh ==> Valid(c', userID, Refresh, refresh, t)))
  {
    var c' := LoggedIn(c, lives, userID, sessionID, access, refresh, now);
    if sessionID != "" {
      forall user, other, t | t >= now && (user, other) != (userID, sessionID)
        ensures SameSession(c, c', user, other, t)
      {
      }
      if HashesStay(c) {
        forall t | now <= t < now + MaxInt(lives.access, lives.refresh)
          ensures t < now + lives.access ==> SessionAccepts(c', userID, Access, access, t)
          ensures t < now + lives.refresh ==> SessionAccepts(c', userID, Refresh, refresh, t)
        {
          LoginListed(c, lives, userID, sessionID, access, refresh, now, t);
        }
      }
    }
  }

  lemma LoginListed(c: SessionCache, lives: Lives, userID: int, sessionID: string, access: string, refresh: string,
                    now: int, t: int)
    requires HashesStay(c) && access != "" && sessionID != "" && now <= t < now + MaxInt(lives.access, lives.refresh)
    ensures var live := Sessions(LoggedIn(c, lives, userID, sessionID, access, refresh, now), userID, t);
            && sessionID in live
            && live[sessionID] == NewSession(sessionID, access, refresh, lives.access, lives.refresh, now)
            && (t < now + lives.access ==> Accepts(live[sessionID], access, Access, t))
            && (t < now + lives.refresh ==> Accepts(live[sessionID], refresh, Refresh, t))
  {
  }

  lemma RemovedLeavesNothing(c: SessionCache, userID: int, now: int)
    ensures NothingValid(Removed(c, userID, now), userID)
  {
    var c', index := Removed(c, userID, now), IndexKey(userID);
    if index in c'.mapItems {
      CleanedIndex(c, userID, now);
      assert c'.mapItems[index].fields == map[];
    }
  }

  /** After a listing the index, if there is one, is unexpired and holds exactly the live sessions. */
  lemma CleanedIndex(c: SessionCache, userID: int, now: int)
    ensures var cleaned, index := Cleaned(c, userID, now), IndexKey(userID);
            index in cleaned.mapItems ==>
              && !Past(cleaned.mapItems[index].expired, now)
              && cleaned.mapItems[index].fields == Sessions(c, userID, now)
  {
  }

  /** Removing one session more. */
  lemma WithoutOneMore(c: SessionCache, userID: int, sids: set<string>, sid: string, now: int)
    requires IndexKey(userID) in c.mapItems ==> !Past(c.mapItems[IndexKey(userID)].expired, now)
    ensures WithoutSessions(c, userID, sids + {sid}) == Revoked(WithoutSessions(c, userID, sids), userID, sid, now)
  {
    var index := IndexKey(userID);
    var after, done := WithoutSessions(c, userID, sids + {sid}), Revoked(WithoutSessions(c, userID, sids), userID, sid, now);
    assert after.strItems == done.strItems;
    if index in c.mapItems {
      assert after.mapItems[index].fields == done.mapItems[index].fields;
    }
    assert after.mapItems == done.mapItems;
  }

  lemma WithoutNothing(c: SessionCache, userID: int)
    ensures WithoutSessions(c, userID, {}) == c
  {
    var index, r := IndexKey(userID), WithoutSessions(c, userID, {});
    if index in c.mapItems {
      assert r.mapItems[index].fields == c.mapItems[index].fields;
    }
    assert r.mapItems == c.mapItems && r.strItems == c.strItems;
  }

  lemma TouchedSame(c: SessionCache, key: Key, now: int)
    ensures SameFrom(c, Touched(c, key, now), now)
  {
  }

  lemma TouchedSessions(c: SessionCache, key: Key, userID: int, now: int, t: int)
    requires !key.MarkerKey?
    ensures Sessions(Touched(c, key, now), userID, t) == Sessions(c, userID, t)
  {
  }

  lemma SameFromLater(a: SessionCache, b: SessionCache, now: int, later: int)
    requires SameFrom(a, b, now) && now <= later
    ensures SameFrom(a, b, later)
  {
    hide Sessions;
  }

  lemma SameFromTransitive(a: SessionCache, b: SessionCache, c: SessionCache, now: int)
    requires SameFrom(a, b, now) && SameFrom(b, c, now)
    ensures SameFrom(a, c, now)
  {
    hide Sessions;
  }
}
