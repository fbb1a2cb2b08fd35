/**
 Whole runs of token-manager calls over the in-process cache (auth/data/user_token.go): logins, rotations,
 revocations, listings and validations of any users and sessions, one call after the other on a clock that
 does not go back. The cache answers every validation as a ledger of what was issued and revoked says.
 */
module SessionRuns {
  import opened Wrappers
  import opened MemoryCache
  import opened SessionTokens
  import opened UserTokens

  datatype Call =
    | Login(userID: int, sessionID: string, access: string, refresh: string)
    | Rotate(userID: int, sessionID: string, kind: Kind, token: string)
    | Revoke(userID: int, sessionID: string)
    | List(userID: int)
    | Check(userID: int, kind: Kind, token: string)

  datatype Timed = Timed(call: Call, at: int)

  const EMPTY: SessionCache := Cache(map[], map[])

  /** The cache after a call, as the contracts of the token manager's methods state it. */
  function Effect(lives: Lives, c: SessionCache, call: Call, at: int): SessionCache {
    match call
    case Login(userID, sessionID, access, refresh) => LoggedIn(c, lives, userID, sessionID, access, refresh, at)
    case Rotate(userID, sessionID, kind, token) => Rotated(c, lives, userID, sessionID, kind, token, at).1
    case Revoke(userID, sessionID) => if sessionID == "" then Removed(c, userID, at) else Revoked(c, userID, sessionID, at)
    case List(userID) => Cleaned(c, userID, at)
    case Check(userID, kind, token) => Checked(c, userID, kind, token, at)
  }

  /** The token manager's methods have these effects. */
  method Perform(manager: UserToken, call: Call, at: int)
    modifies manager.cache
    ensures manager.cache.View() == Effect(manager.lives, old(manager.cache.View()), call, at)
  {
    match call
    case Login(userID, sessionID, access, refresh) =>
      var ok := manager.GenerateTokenForSession(userID, sessionID, access, refresh, at);
    case Rotate(userID, sessionID, kind, token) =>
      if kind.Access? {
        var ok := manager.GenerateAccessTokenForSession(userID, sessionID, token, at);
      } else {
        var ok := manager.GenerateRefreshTokenForSession(userID, sessionID, token, at);
      }
    case Revoke(userID, sessionID) => manager.RemoveTokenForSession(userID, sessionID, at);
    case List(userID) => var sessions := manager.GetTokenSessions(userID, at);
    case Check(userID, kind, token) => var valid := manager.IsTokenValid(userID, kind, token, at, at);
  }

  function Run(lives: Lives, c: SessionCache, calls: seq<Timed>): SessionCache
    decreases |calls|
  {
    if calls == [] then c else Run(lives, Effect(lives, c, calls[0].call, calls[0].at), calls[1..])
  }

  function EndTime(clock: int, calls: seq<Timed>): int {
    if calls == [] then clock else calls[|calls| - 1].at
  }

  // ---------- the ledger ----------

  datatype Issue = Issue(token: string, at: int)

  /** A session in force: every access token it was given, oldest first, and its refresh token. */
  datatype Life = Life(access: seq<Issue>, refresh: Issue)

  /** Who holds what, without any cache: sessions in force, tokens of no session, and all tokens ever issued. */
  datatype Ledger = Ledger(sessions: map<(int, string), Life>, plain: map<(int, Kind), Issue>, issued: map<string, Owner>)

  const BLANK := Ledger(map[], map[], map[])

  function Newest(life: Life): Issue
    requires life.access != []
  {
    life.access[|life.access| - 1]
  }

  /** When the later of a session's two tokens expires. */
  function Deadline(lives: Lives, life: Life): int
    requires life.access != []
  {
    MaxInt(Newest(life).at + lives.access, life.refresh.at + lives.refresh)
  }

  /** The time of a session's last login or rotation. */
  function LastIssue(life: Life): int
    requires life.access != []
  {
    MaxInt(Newest(life).at, life.refresh.at)
  }

  /** A session can be rotated until both its tokens have expired, and for good if they had when it was last issued one. */
  function Due(lives: Lives, life: Life): Option<int>
    requires life.access != []
  {
    Expiration(Deadline(lives, life) - LastIssue(life), LastIssue(life))
  }

  /** Until when a user keeps a token of no session. */
  function PlainDue(lives: Lives, kind: Kind, issue: Issue): Option<int> {
    Expiration(LifeOf(lives, kind), issue.at)
  }

  function Renew(life: Life, kind: Kind, issue: Issue): Life {
    if kind.Access? then life.(access := life.access + [issue]) else life.(refresh := issue)
  }

  function Entered(lives: Lives, l: Ledger, call: Call, at: int): Ledger {
    match call
    case Login(userID, sessionID, access, refresh) =>
      if access == "" then l
      else if sessionID == "" then
        Ledger(l.sessions, l.plain[(userID, Access) := Issue(access, at)][(userID, Refresh) := Issue(refresh, at)],
               l.issued[access := Sessionless(userID)][refresh := Sessionless(userID)])
      else
        Ledger(l.sessions[(userID, sessionID) := Life([Issue(access, at)], Issue(refresh, at))], l.plain,
               l.issued[access := OfSession(userID, sessionID)][refresh := OfSession(userID, sessionID)])
    case Rotate(userID, sessionID, kind, token) =>
      if token == "" then l
      else if sessionID == "" then
        Ledger(l.sessions, l.plain[(userID, kind) := Issue(token, at)], l.issued[token := Sessionless(userID)])
      else if InForce(lives, l, userID, sessionID, at) then
        Ledger(l.sessions[(userID, sessionID) := Renew(l.sessions[(userID, sessionID)], kind, Issue(token, at))], l.plain,
               l.issued[token := OfSession(userID, sessionID)])
      else l
    case Revoke(userID, sessionID) =>
      if sessionID == "" then
        l.(sessions := map k | k in l.sessions && k.0 != userID :: l.sessions[k],
           plain := l.plain - {(userID, Access), (userID, Refresh)})
      else l.(sessions := l.sessions - {(userID, sessionID)})
    case List(_) => l
    case Check(_, _, _) => l
  }

  predicate InForce(lives: Lives, l: Ledger, userID: int, sessionID: string, at: int) {
    && (userID, sessionID) in l.sessions && l.sessions[(userID, sessionID)].access != []
    && !Past(Due(lives, l.sessions[(userID, sessionID)]), at)
  }

  function Entries(lives: Lives, l: Ledger, calls: seq<Timed>): Ledger
    decreases |calls|
  {
    if calls == [] then l else Entries(lives, Entered(lives, l, calls[0].call, calls[0].at), calls[1..])
  }

  /** Tokens come from a UUID generator: never empty and never issued before. */
  predicate Unissued(l: Ledger, token: string) {
    token != "" && token !in l.issued
  }

  predicate Allowed(l: Ledger, call: Call) {
    match call
    case Login(_, _, access, refresh) => access == "" || (Unissued(l, access) && Unissued(l, refresh) && access != refresh)
    case Rotate(_, _, _, token) => token == "" || Unissued(l, token)
    case _ => true
  }

  predicate ValidRun(lives: Lives, l: Ledger, clock: int, calls: seq<Timed>)
    decreases |calls|
  {
    calls != [] ==>
      && clock <= calls[0].at && Allowed(l, calls[0].call)
      && ValidRun(lives, Entered(lives, l, calls[0].call, calls[0].at), calls[0].at, calls[1..])
  }

  // ---------- what the ledger says about a token ----------

  predicate DistinctTokens(issues: seq<Issue>) {
    && (forall i :: 0 <= i < |issues| ==> issues[i].token != "")
    && (forall i, j :: 0 <= i < j < |issues| ==> issues[i].token != issues[j].token)
  }

  /** The only access tokens that may validate: the newest, and its predecessor until rotation time plus grace. */
  predicate NewestOrPredecessor(issues: seq<Issue>, life: int, token: string, now: int)
    requires issues != []
  {
    var n := |issues|;
    || (token == issues[n - 1].token && now < issues[n - 1].at + life)
    || (n >= 2 && token == issues[n - 2].token
        && now < MinInt(issues[n - 2].at + life, issues[n - 1].at + GRACE))
  }

  /** The session grants the token: of the refresh tokens only the newest one counts. */
  predicate Grants(lives: Lives, life: Life, kind: Kind, token: string, now: int)
    requires life.access != []
  {
    if kind.Access? then NewestOrPredecessor(life.access, lives.access, token, now)
    else token == life.refresh.token && now < life.refresh.at + lives.refresh
  }

  predicate SessionGrants(lives: Lives, l: Ledger, userID: int, sessionID: string, kind: Kind, token: string,
                          now: int) {
    && (userID, sessionID) in l.sessions && l.sessions[(userID, sessionID)].access != []
    && Grants(lives, l.sessions[(userID, sessionID)], kind, token, now)
  }

  predicate PlainGrants(lives: Lives, l: Ledger, userID: int, kind: Kind, token: string, now: int) {
    && (userID, kind) in l.plain && l.plain[(userID, kind)].token == token
    && !Past(PlainDue(lives, kind, l.plain[(userID, kind)]), now)
  }

  predicate InOrder(issues: seq<Issue>) {
    forall i, j :: 0 <= i < j < |issues| ==> issues[i].at <= issues[j].at
  }

  /** The record a session in force has in the cache. */
  function RecordOf(lives: Lives, sessionID: string, life: Life): TokenSession
    requires life.access != []
  {
    var n := |life.access|;
    TokenSession(sessionID, Newest(life).token, life.refresh.token,
                 Newest(life).at + lives.access, life.refresh.at + lives.refresh,
                 if n == 1 then "" else life.access[n - 2].token,
                 if n == 1 then 0 else MinInt(life.access[n - 2].at + lives.access, life.access[n - 1].at + GRACE))
  }

  lemma RecordGrants(lives: Lives, sessionID: string, life: Life, kind: Kind, token: string, now: int)
    requires life.access != [] && token != ""
    ensures Accepts(RecordOf(lives, sessionID, life), token, kind, now) == Grants(lives, life, kind, token, now)
    ensures InOrder(life.access) && Grants(lives, life, kind, token, now) ==>
              now <= Deadline(lives, life) && !Past(Due(lives, life), now)
  {
  }

  lemma RecordRotates(lives: Lives, sessionID: string, life: Life, kind: Kind, token: string, at: int)
    requires life.access != [] && Newest(life).token != "" && Newest(life).token != token
    ensures RotatedRecord(lives, RecordOf(lives, sessionID, life), kind, token, at)
         == RecordOf(lives, sessionID, Renew(life, kind, Issue(token, at)))
  {
    var renewed, n := Renew(life, kind, Issue(token, at)), |life.access|;
    if kind.Access? {
      assert renewed.access[n] == Issue(token, at) && renewed.access[n - 1] == Newest(life);
      assert |renewed.access| - 1 == n && |renewed.access| - 2 == n - 1;
    }
  }

  // ---------- the invariant ----------

  predicate LifeGood(l: Ledger, userID: int, sessionID: string, life: Life, clock: int) {
    var owner := OfSession(userID, sessionID);
    && life.access != [] && DistinctTokens(life.access) && InOrder(life.access) && LastIssue(life) <= clock
    && (forall i :: 0 <= i < |life.access| ==> Owned(l.issued, life.access[i].token, owner))
    && Owned(l.issued, life.refresh.token, owner)
  }

  ghost predicate LedgerGood(l: Ledger, clock: int) {
    && "" !in l.issued
    && (forall k :: k in l.sessions ==> LifeGood(l, k.0, k.1, l.sessions[k], clock))
    && (forall k :: k in l.plain ==> Owned(l.issued, l.plain[k].token, Sessionless(k.0)))
  }

  /** The cache keeps a session in force until its deadline, and no live marker of any other. */
  predicate SessionKept(lives: Lives, c: SessionCache, l: Ledger, userID: int, sessionID: string, clock: int) {
    var marker, index := MarkerKey(userID, sessionID), IndexKey(userID);
    if (userID, sessionID) in l.sessions then
      var life := l.sessions[(userID, sessionID)];
      && life.access != []
      && (marker in c.strItems ==> c.strItems[marker].expired == Due(lives, life))
      && (!Past(Due(lives, life), clock) ==>
            && marker in c.strItems && index in c.mapItems && sessionID in c.mapItems[index].fields
            && c.mapItems[index].fields[sessionID] == RecordOf(lives, sessionID, life))
    else marker in c.strItems ==> Past(c.strItems[marker].expired, clock)
  }

  predicate PlainKept(lives: Lives, c: SessionCache, l: Ledger, userID: int, kind: Kind, clock: int) {
    var key := Key0(userID, kind);
    if (userID, kind) in l.plain then
      var issue := l.plain[(userID, kind)];
      && (key in c.strItems ==> c.strItems[key] == StrItem(issue.token, PlainDue(lives, kind, issue)))
      && (!Past(PlainDue(lives, kind, issue), clock) ==> key in c.strItems)
    else key !in c.strItems
  }

  ghost predicate Kept(lives: Lives, c: SessionCache, l: Ledger, clock: int) {
    && HashesStay(c)
    && (forall userID, sessionID :: SessionKept(lives, c, l, userID, sessionID, clock))
    && (forall userID, kind :: PlainKept(lives, c, l, userID, kind, clock))
  }

  lemma EnteredGood(lives: Lives, l: Ledger, clock: int, call: Call, at: int)
    requires LedgerGood(l, clock) && clock <= at && Allowed(l, call)
    ensures LedgerGood(Entered(lives, l, call, at), at)
  {
    EnteredPlain(lives, l, clock, call, at);
    IssuedGrows(lives, l, call, at);
    hide Entered, InOrder, DistinctTokens;
    var l' := Entered(lives, l, call, at);
    forall k | k in l'.sessions ensures LifeGood(l', k.0, k.1, l'.sessions[k], at) {
      if k in l.sessions {
        LifeGoodLater(l, l', k.0, k.1, l.sessions[k], clock, at);
      }
      EnteredLife(lives, l, call, at, k);
      if l'.sessions[k] == Fresher(l, call, at, k) && call.Rotate? {
        RenewGood(l, l', k.0, k.1, l.sessions[k], call.kind, Issue(call.token, at));
      }
    }
  }

  lemma EnteredPlain(lives: Lives, l: Ledger, clock: int, call: Call, at: int)
    requires LedgerGood(l, clock) && Allowed(l, call)
    ensures var l' := Entered(lives, l, call, at);
            "" !in l'.issued && forall k :: k in l'.plain ==> Owned(l'.issued, l'.plain[k].token, Sessionless(k.0))
  {
    hide LifeGood;
  }

  /** What a rotation would make of a session. */
  function Fresher(l: Ledger, call: Call, at: int, k: (int, string)): Life {
    if call.Rotate? && k in l.sessions then Renew(l.sessions[k], call.kind, Issue(call.token, at))
    else Life([], Issue("", 0))
  }

  /** A session in the new ledger is as before, or just logged in, or just rotated with a token nobody had. */
  lemma EnteredLife(lives: Lives, l: Ledger, call: Call, at: int, k: (int, string))
    requires Allowed(l, call) && k in Entered(lives, l, call, at).sessions
    ensures var l' := Entered(lives, l, call, at);
            || (k in l.sessions && l'.sessions[k] == l.sessions[k])
            || (call.Login? && k == (call.userID, call.sessionID) && LifeGood(l', k.0, k.1, l'.sessions[k], at))
            || (call.Rotate? && k in l.sessions && l'.sessions[k] == Fresher(l, call, at, k)
                && Unissued(l, call.token) && Owned(l'.issued, call.token, OfSession(k.0, k.1)))
  {
  }

  lemma IssuedGrows(lives: Lives, l: Ledger, call: Call, at: int)
    requires Allowed(l, call)
    ensures var l' := Entered(lives, l, call, at);
            forall token :: token in l.issued ==> token in l'.issued && l'.issued[token] == l.issued[token]
  {
  }

  lemma LifeGoodLater(l: Ledger, l': Ledger, userID: int, sessionID: string, life: Life, clock: int, at: int)
    requires LifeGood(l, userID, sessionID, life, clock) && clock <= at
    requires forall token :: token in l.issued ==> token in l'.issued && l'.issued[token] == l.issued[token]
    ensures LifeGood(l', userID, sessionID, life, at)
  {
  }

  lemma RenewGood(l: Ledger, l': Ledger, userID: int, sessionID: string, life: Life, kind: Kind, issue: Issue)
    requires LifeGood(l', userID, sessionID, life, issue.at)
    requires forall i :: 0 <= i < |life.access| ==> life.access[i].token in l.issued
    requires Unissued(l, issue.token) && Owned(l'.issued, issue.token, OfSession(userID, sessionID))
    ensures LifeGood(l', userID, sessionID, Renew(life, kind, issue), issue.at)
  {
  }

  /** A session is listed exactly while it is in force, with the record the ledger describes. */
  lemma SessionListed(lives: Lives, c: SessionCache, l: Ledger, userID: int, sessionID: string, clock: int, t: int)
    requires HashesStay(c) && SessionKept(lives, c, l, userID, sessionID, clock) && clock <= t
    ensures sessionID in Sessions(c, userID, t) <==> InForce(lives, l, userID, sessionID, t)
    ensures sessionID in Sessions(c, userID, t) ==>
              Sessions(c, userID, t)[sessionID] == RecordOf(lives, sessionID, l.sessions[(userID, sessionID)])
  {
  }

  // ---------- every call keeps the invariant ----------

  /** Neither the session's marker nor its record is different. */
  predicate SameEntries(c: SessionCache, c': SessionCache, userID: int, sessionID: string) {
    var marker, index := MarkerKey(userID, sessionID), IndexKey(userID);
    && (if marker in c.strItems then marker in c'.strItems && c'.strItems[marker] == c.strItems[marker]
        else marker !in c'.strItems)
    && (index in c.mapItems && sessionID in c.mapItems[index].fields ==>
          && index in c'.mapItems && sessionID in c'.mapItems[index].fields
          && c'.mapItems[index].fields[sessionID] == c.mapItems[index].fields[sessionID])
  }

  /** A call that changes neither a session's entries nor its ledger keeps it. */
  lemma SessionFrame(lives: Lives, c: SessionCache, c': SessionCache, l: Ledger, l': Ledger, clock: int, at: int,
                     userID: int, sessionID: string)
    requires SessionKept(lives, c, l, userID, sessionID, clock) && clock <= at
    requires SameEntries(c, c', userID, sessionID)
    requires var k := (userID, sessionID);
             if k in l.sessions then k in l'.sessions && l'.sessions[k] == l.sessions[k] else k !in l'.sessions
    ensures SessionKept(lives, c', l', userID, sessionID, at)
  {
    hide RecordOf, Due;
  }

  lemma LoginKeepsSession(lives: Lives, c: SessionCache, l: Ledger, clock: int, call: Call, at: int, userID: int,
                          sessionID: string)
    requires call.Login? && HashesStay(c) && clock <= at
    requires SessionKept(lives, c, l, userID, sessionID, clock)
    ensures SessionKept(lives, Effect(lives, c, call, at), Entered(lives, l, call, at), userID, sessionID, at)
  {
    hide SessionKept;
    if call.access != "" && call.sessionID != "" && (userID, sessionID) == (call.userID, call.sessionID) {
      LoginKeepsOwn(lives, c, l, call, at);
    } else {
      hide RecordOf, Deadline, NewSession;
      SessionFrame(lives, c, Effect(lives, c, call, at), l, Entered(lives, l, call, at), clock, at, userID, sessionID);
    }
  }

  lemma LoginKeepsOwn(lives: Lives, c: SessionCache, l: Ledger, call: Call, at: int)
    requires call.Login? && HashesStay(c) && call.access != "" && call.sessionID != ""
    ensures SessionKept(lives, Effect(lives, c, call, at), Entered(lives, l, call, at), call.userID, call.sessionID, at)
  {
    var life := Life([Issue(call.access, at)], Issue(call.refresh, at));
    var record := NewSession(call.sessionID, call.access, call.refresh, lives.access, lives.refresh, at);
    assert RecordOf(lives, call.sessionID, life) == record;
    assert Due(lives, life) == Expiration(MaxInt(lives.access, lives.refresh), at);
    hide RecordOf, Due, NewSession;
  }

  lemma RotateKeepsSession(lives: Lives, c: SessionCache, l: Ledger, clock: int, call: Call, at: int, userID: int,
                           sessionID: string)
    requires call.Rotate? && HashesStay(c) && clock <= at && LedgerGood(l, clock) && Allowed(l, call)
    requires SessionKept(lives, c, l, userID, sessionID, clock)
    requires SessionKept(lives, c, l, call.userID, call.sessionID, clock)
    ensures SessionKept(lives, Effect(lives, c, call, at), Entered(lives, l, call, at), userID, sessionID, at)
  {
    hide Sessions, RecordOf, RotatedRecord, SessionKept, Due;
    SessionListed(lives, c, l, call.userID, call.sessionID, clock, at);
    if call.sessionID != "" && call.token != "" && InForce(lives, l, call.userID, call.sessionID, at) {
      var life := l.sessions[(call.userID, call.sessionID)];
      assert LifeGood(l, call.userID, call.sessionID, life, clock);
      RecordRotates(lives, call.sessionID, life, call.kind, call.token, at);
      RenewedKeepsSession(lives, c, l, clock, call, at, userID, sessionID, life);
    } else {
      FailedKeepsSession(lives, c, l, clock, call, at, userID, sessionID);
    }
  }

  /** A rotation without a session ID, a token or a session in force leaves the sessions alone, but for a dead marker. */
  lemma FailedKeepsSession(lives: Lives, c: SessionCache, l: Ledger, clock: int, call: Call, at: int, userID: int,
                           sessionID: string)
    requires call.Rotate? && HashesStay(c) && clock <= at && SessionKept(lives, c, l, userID, sessionID, clock)
    requires call.sessionID in Sessions(c, call.userID, at) <==> InForce(lives, l, call.userID, call.sessionID, at)
    requires call.sessionID == "" || call.token == "" || !InForce(lives, l, call.userID, call.sessionID, at)
    ensures SessionKept(lives, Effect(lives, c, call, at), Entered(lives, l, call, at), userID, sessionID, at)
  {
    hide Sessions, RecordOf, RotatedRecord, InForce, Due;
  }

  /** A successful rotation, on the session it is about and on any other. */
  lemma RenewedKeepsSession(lives: Lives, c: SessionCache, l: Ledger, clock: int, call: Call, at: int,
                            userID: int, sessionID: string, life: Life)
    requires call.Rotate? && HashesStay(c) && clock <= at
    requires call.sessionID != "" && call.token != "" && InForce(lives, l, call.userID, call.sessionID, at)
    requires life == l.sessions[(call.userID, call.sessionID)] && LastIssue(life) <= at
    requires SessionKept(lives, c, l, userID, sessionID, clock)
    requires SessionKept(lives, c, l, call.userID, call.sessionID, clock)
    requires call.sessionID in Sessions(c, call.userID, at)
    requires Sessions(c, call.userID, at)[call.sessionID] == RecordOf(lives, call.sessionID, life)
    requires RotatedRecord(lives, RecordOf(lives, call.sessionID, life), call.kind, call.token, at)
          == RecordOf(lives, call.sessionID, Renew(life, call.kind, Issue(call.token, at)))
    ensures SessionKept(lives, Effect(lives, c, call, at), Entered(lives, l, call, at), userID, sessionID, at)
  {
    hide RotatedRecord, Sessions, RecordOf, SessionKept;
    var record := RecordOf(lives, call.sessionID, Renew(life, call.kind, Issue(call.token, at)));
    assert Effect(lives, c, call, at) == Renewed(c, call.userID, call.sessionID, record, at) by {
      hide Renewed;
    }
    RecordDue(lives, call.sessionID, life, call.kind, Issue(call.token, at));
    if (userID, sessionID) == (call.userID, call.sessionID) {
      RenewedOwn(lives, c, l, clock, call, at, life, record);
    } else {
      hide Due;
      SessionFrame(lives, c, Effect(lives, c, call, at), l, Entered(lives, l, call, at), clock, at, userID, sessionID);
    }
  }

  /** The marker's new deadline after a rotation is the one the renewed session is due at. */
  lemma RecordDue(lives: Lives, sessionID: string, life: Life, kind: Kind, issue: Issue)
    requires life.access != [] && LastIssue(life) <= issue.at
    ensures var renewed := Renew(life, kind, issue);
            var record := RecordOf(lives, sessionID, renewed);
            && renewed.access != [] && record.sessionID == sessionID
            && Expiration(MaxInt(record.accessExpiresAt, record.refreshExpiresAt) - issue.at, issue.at) == Due(lives, renewed)
  {
  }

  lemma RenewedOwn(lives: Lives, c: SessionCache, l: Ledger, clock: int, call: Call, at: int, life: Life,
                   record: TokenSession)
    requires call.Rotate? && HashesStay(c) && clock <= at
    requires call.sessionID != "" && call.token != "" && InForce(lives, l, call.userID, call.sessionID, at)
    requires life == l.sessions[(call.userID, call.sessionID)]
    requires SessionKept(lives, c, l, call.userID, call.sessionID, clock)
    requires var renewed := Renew(life, call.kind, Issue(call.token, at));
             && renewed.access != [] && record == RecordOf(lives, call.sessionID, renewed) && record.sessionID == call.sessionID
             && Expiration(MaxInt(record.accessExpiresAt, record.refreshExpiresAt) - at, at) == Due(lives, renewed)
    requires Effect(lives, c, call, at) == Renewed(c, call.userID, call.sessionID, record, at)
    ensures SessionKept(lives, Effect(lives, c, call, at), Entered(lives, l, call, at), call.userID, call.sessionID, at)
  {
    hide RotatedRecord, Sessions, RecordOf, Due, Renew, Effect;
  }

  lemma CleanedKeepsSession(lives: Lives, c: SessionCache, l: Ledger, clock: int, at: int, user: int, userID: int,
                            sessionID: string)
    requires HashesStay(c) && clock <= at && SessionKept(lives, c, l, userID, sessionID, clock)
    ensures SessionKept(lives, Cleaned(c, user, at), l, userID, sessionID, at)
  {
    hide RecordOf;
  }

  lemma RevokeKeepsSession(lives: Lives, c: SessionCache, l: Ledger, clock: int, call: Call, at: int, userID: int,
                           sessionID: string)
    requires call.Revoke? && HashesStay(c) && clock <= at
    requires SessionKept(lives, c, l, userID, sessionID, clock)
    ensures SessionKept(lives, Effect(lives, c, call, at), Entered(lives, l, call, at), userID, sessionID, at)
  {
    hide RecordOf;
    if call.sessionID == "" {
      CleanedKeepsSession(lives, c, l, clock, at, call.userID, userID, sessionID);
      if userID == call.userID {
        MarkerRemoved(lives, c, l, clock, at, userID, sessionID);
      } else {
        assert SessionKept(lives, c, l, userID, sessionID, clock);
      }
    }
  }

  /** Removing everything of a user leaves no live marker. */
  lemma MarkerRemoved(lives: Lives, c: SessionCache, l: Ledger, clock: int, at: int, userID: int, sessionID: string)
    requires HashesStay(c) && clock <= at && SessionKept(lives, c, l, userID, sessionID, clock)
    ensures var marker, removed := MarkerKey(userID, sessionID), Removed(c, userID, at);
            marker in removed.strItems ==> Past(removed.strItems[marker].expired, at)
  {
    SessionListed(lives, c, l, userID, sessionID, clock, at);
  }

  lemma EffectKeepsSession(lives: Lives, c: SessionCache, l: Ledger, clock: int, call: Call, at: int, userID: int,
                           sessionID: string)
    requires Kept(lives, c, l, clock) && clock <= at && LedgerGood(l, clock) && Allowed(l, call)
    ensures SessionKept(lives, Effect(lives, c, call, at), Entered(lives, l, call, at), userID, sessionID, at)
  {
    assert SessionKept(lives, c, l, userID, sessionID, clock);
    hide SessionKept, PlainKept;
    match call
    case Login(_, _, _, _) => LoginKeepsSession(lives, c, l, clock, call, at, userID, sessionID);
    case Rotate(user, sid, _, _) => RotateKeepsSession(lives, c, l, clock, call, at, userID, sessionID);
    case Revoke(_, _) => RevokeKeepsSession(lives, c, l, clock, call, at, userID, sessionID);
    case List(user) => CleanedKeepsSession(lives, c, l, clock, at, user, userID, sessionID);
    case Check(user, kind, token) =>
      TouchedKeepsSession(lives, c, l, clock, Key0(user, kind), at, userID, sessionID);
      CleanedKeepsSession(lives, Touched(c, Key0(user, kind), at), l, at, at, user, userID, sessionID);
  }

  lemma TouchedKeepsSession(lives: Lives, c: SessionCache, l: Ledger, clock: int, key: Key, at: int, userID: int,
                            sessionID: string)
    requires !key.MarkerKey? && clock <= at && HashesStay(c) && SessionKept(lives, c, l, userID, sessionID, clock)
    ensures SessionKept(lives, Touched(c, key, at), l, userID, sessionID, at) && HashesStay(Touched(c, key, at))
    ensures SessionKept(lives, c, l, userID, sessionID, at)
  {
    hide RecordOf;
  }

  lemma LoginKeepsPlain(lives: Lives, c: SessionCache, l: Ledger, clock: int, call: Call, at: int, userID: int,
                        kind: Kind)
    requires call.Login? && PlainKept(lives, c, l, userID, kind, clock) && clock <= at
    ensures PlainKept(lives, Effect(lives, c, call, at), Entered(lives, l, call, at), userID, kind, at)
  {
    hide NewSession;
  }

  /** A rotation of a session changes no token of the user's own; one without a session sets one. */
  lemma RotateKeepsPlain(lives: Lives, c: SessionCache, l: Ledger, clock: int, call: Call, at: int, userID: int,
                         kind: Kind)
    requires call.Rotate? && PlainKept(lives, c, l, userID, kind, clock) && clock <= at
    ensures PlainKept(lives, Effect(lives, c, call, at), Entered(lives, l, call, at), userID, kind, at)
  {
    hide Sessions, RotatedRecord, InForce, Renew;
    if call.sessionID != "" {
      RotateKeepsStrings(lives, c, call, at, userID, kind);
      hide Effect;
    }
  }

  lemma RotateKeepsStrings(lives: Lives, c: SessionCache, call: Call, at: int, userID: int, kind: Kind)
    requires call.Rotate? && call.sessionID != ""
    ensures var key, c' := Key0(userID, kind), Effect(lives, c, call, at);
            if key in c.strItems then key in c'.strItems && c'.strItems[key] == c.strItems[key] else key !in c'.strItems
  {
    hide Sessions, RotatedRecord;
  }

  lemma RevokeKeepsPlain(lives: Lives, c: SessionCache, l: Ledger, clock: int, call: Call, at: int, userID: int,
                         kind: Kind)
    requires call.Revoke? && PlainKept(lives, c, l, userID, kind, clock) && clock <= at
    ensures PlainKept(lives, Effect(lives, c, call, at), Entered(lives, l, call, at), userID, kind, at)
  {
    hide Sessions;
  }

  lemma CheckKeepsPlain(lives: Lives, c: SessionCache, l: Ledger, clock: int, call: Call, at: int, userID: int,
                        kind: Kind)
    requires (call.Check? || call.List?) && PlainKept(lives, c, l, userID, kind, clock) && clock <= at
    ensures PlainKept(lives, Effect(lives, c, call, at), Entered(lives, l, call, at), userID, kind, at)
  {
    hide Sessions;
  }

  lemma EffectKeepsPlain(lives: Lives, c: SessionCache, l: Ledger, clock: int, call: Call, at: int, userID: int,
                         kind: Kind)
    requires PlainKept(lives, c, l, userID, kind, clock) && clock <= at
    ensures PlainKept(lives, Effect(lives, c, call, at), Entered(lives, l, call, at), userID, kind, at)
  {
    hide PlainKept, Effect, Entered;
    match call
    case Login(_, _, _, _) => LoginKeepsPlain(lives, c, l, clock, call, at, userID, kind);
    case Rotate(_, _, _, _) => RotateKeepsPlain(lives, c, l, clock, call, at, userID, kind);
    case Revoke(_, _) => RevokeKeepsPlain(lives, c, l, clock, call, at, userID, kind);
    case _ => CheckKeepsPlain(lives, c, l, clock, call, at, userID, kind);
  }

  lemma EffectKeepsHashes(lives: Lives, c: SessionCache, call: Call, at: int)
    requires HashesStay(c)
    ensures HashesStay(Effect(lives, c, call, at))
  {
    hide RotatedRecord, NewSession;
  }

  lemma EffectKeeps(lives: Lives, c: SessionCache, l: Ledger, clock: int, call: Call, at: int)
    requires Kept(lives, c, l, clock) && clock <= at && LedgerGood(l, clock) && Allowed(l, call)
    ensures Kept(lives, Effect(lives, c, call, at), Entered(lives, l, call, at), at)
  {
    hide SessionKept, PlainKept, Effect, Entered;
    forall userID, sessionID
      ensures SessionKept(lives, Effect(lives, c, call, at), Entered(lives, l, call, at), userID, sessionID, at)
    {
      EffectKeepsSession(lives, c, l, clock, call, at, userID, sessionID);
    }
    forall userID, kind
      ensures PlainKept(lives, Effect(lives, c, call, at), Entered(lives, l, call, at), userID, kind, at)
    {
      assert PlainKept(lives, c, l, userID, kind, clock);
      EffectKeepsPlain(lives, c, l, clock, call, at, userID, kind);
    }
    EffectKeepsHashes(lives, c, call, at);
  }

  lemma {:induction false} RunKeeps(lives: Lives, c: SessionCache, l: Ledger, clock: int, calls: seq<Timed>)
    requires Kept(lives, c, l, clock) && LedgerGood(l, clock) && ValidRun(lives, l, clock, calls)
    ensures Kept(lives, Run(lives, c, calls), Entries(lives, l, calls), EndTime(clock, calls))
    ensures LedgerGood(Entries(lives, l, calls), EndTime(clock, calls))
    decreases |calls|
  {
    hide Kept, LedgerGood, Effect, Entered, Allowed;
    if calls == [] {
    } else {
      var call, at := calls[0].call, calls[0].at;
      EffectKeeps(lives, c, l, clock, call, at);
      EnteredGood(lives, l, clock, call, at);
      RunKeeps(lives, Effect(lives, c, call, at), Entered(lives, l, call, at), at, calls[1..]);
      assert EndTime(at, calls[1..]) == EndTime(clock, calls);
    }
  }

  lemma NothingKept(lives: Lives, clock: int)
    ensures Kept(lives, EMPTY, BLANK, clock) && LedgerGood(BLANK, clock)
  {
  }

  // ---------- the law ----------

  /** In a cache that keeps the ledger, a session accepts a token exactly if the ledger grants it. */
  lemma SessionLaw(lives: Lives, c: SessionCache, l: Ledger, clock: int, userID: int, kind: Kind, token: string,
                   now: int)
    requires Kept(lives, c, l, clock) && LedgerGood(l, clock) && clock <= now && token != ""
    ensures SessionAccepts(c, userID, kind, token, now) <==>
            exists sid :: SessionGrants(lives, l, userID, sid, kind, token, now)
  {
    forall sid
      ensures SessionGrants(lives, l, userID, sid, kind, token, now) <==>
              sid in Sessions(c, userID, now) && Accepts(Sessions(c, userID, now)[sid], token, kind, now)
    {
      assert SessionKept(lives, c, l, userID, sid, clock);
      SessionListed(lives, c, l, userID, sid, clock, now);
      if (userID, sid) in l.sessions {
        var life := l.sessions[(userID, sid)];
        assert LifeGood(l, userID, sid, life, clock);
        RecordGrants(lives, sid, life, kind, token, now);
      }
    }
  }

  lemma PlainLaw(lives: Lives, c: SessionCache, l: Ledger, clock: int, userID: int, kind: Kind, token: string, now: int)
    requires Kept(lives, c, l, clock) && clock <= now
    ensures Stored(c, Key0(userID, kind), token, now) <==> PlainGrants(lives, l, userID, kind, token, now)
  {
    assert PlainKept(lives, c, l, userID, kind, clock);
  }

  /**
   Over every run of calls, and at every time from its last call on, a token validates exactly if the ledger
   says so: it is stored for the user and not expired, or some session in force grants it.
   */
  lemma RunLaw(lives: Lives, clock: int, calls: seq<Timed>, userID: int, kind: Kind, token: string, now: int)
    requires ValidRun(lives, BLANK, clock, calls) && EndTime(clock, calls) <= now
    ensures var l := Entries(lives, BLANK, calls);
            Valid(Run(lives, EMPTY, calls), userID, kind, token, now) <==>
            && token != ""
            && (PlainGrants(lives, l, userID, kind, token, now)
                || exists sid :: SessionGrants(lives, l, userID, sid, kind, token, now))
  {
    NothingKept(lives, clock);
    RunKeeps(lives, EMPTY, BLANK, clock, calls);
    hide Kept, LedgerGood, SessionAccepts, Stored, PlainGrants, SessionGrants, Run, Entries;
    var c, l, end := Run(lives, EMPTY, calls), Entries(lives, BLANK, calls), EndTime(clock, calls);
    PlainLaw(lives, c, l, end, userID, kind, token, now);
    if token != "" {
      SessionLaw(lives, c, l, end, userID, kind, token, now);
    }
  }

  lemma OwnerGrants(lives: Lives, l: Ledger, clock: int, userID: int, sessionID: string, kind: Kind, token: string,
                    now: int)
    requires LedgerGood(l, clock) && Owned(l.issued, token, OfSession(userID, sessionID))
    ensures !PlainGrants(lives, l, userID, kind, token, now)
    ensures forall sid :: SessionGrants(lives, l, userID, sid, kind, token, now) ==> sid == sessionID
  {
    forall sid | SessionGrants(lives, l, userID, sid, kind, token, now) ensures sid == sessionID {
      assert LifeGood(l, userID, sid, l.sessions[(userID, sid)], clock);
    }
  }

  /**
   Rotation grace: over every run, a token issued to a session validates exactly while the session is in
   force, neither revoked nor logged in anew, and the token is its newest access token, the predecessor of
   that one within its grace and its own expiry, or its newest refresh token.
   */
  lemma RotationGrace(lives: Lives, clock: int, calls: seq<Timed>, userID: int, sessionID: string,
                      kind: Kind, token: string, now: int)
    requires ValidRun(lives, BLANK, clock, calls) && EndTime(clock, calls) <= now
    requires Owned(Entries(lives, BLANK, calls).issued, token, OfSession(userID, sessionID))
    ensures Valid(Run(lives, EMPTY, calls), userID, kind, token, now) <==>
            SessionGrants(lives, Entries(lives, BLANK, calls), userID, sessionID, kind, token, now)
  {
    RunLaw(lives, clock, calls, userID, kind, token, now);
    NothingKept(lives, clock);
    RunKeeps(lives, EMPTY, BLANK, clock, calls);
    hide Kept, Stored, PlainGrants, SessionGrants, Run, Entries, Valid, ValidRun;
    var l := Entries(lives, BLANK, calls);
    OwnerGrants(lives, l, EndTime(clock, calls), userID, sessionID, kind, token, now);
    assert "" !in l.issued;
  }

  // ---------- the grace in numbers ----------

  /** A login, and an access rotation later on. */
  function LoginAndRotation(userID: int, sessionID: string, a: string, r: string, b: string, at: int): seq<Timed> {
    [Timed(Login(userID, sessionID, a, r), 0), Timed(Rotate(userID, sessionID, Access, b), at)]
  }

  lemma LoginAndRotationLedger(lives: Lives, userID: int, sessionID: string, a: string, r: string, b: string, at: int)
    requires sessionID != "" && a != "" && r != "" && b != "" && a != r && a != b && r != b && 0 <= at < lives.access
    ensures var calls := LoginAndRotation(userID, sessionID, a, r, b, at);
            var l := Entries(lives, BLANK, calls);
            && ValidRun(lives, BLANK, 0, calls) && EndTime(0, calls) == at
            && (userID, sessionID) in l.sessions
            && l.sessions[(userID, sessionID)] == Life([Issue(a, 0), Issue(b, at)], Issue(r, 0))
            && (forall token :: token in {a, r, b} ==> Owned(l.issued, token, OfSession(userID, sessionID)))
  {
    var calls := LoginAndRotation(userID, sessionID, a, r, b, at);
    var l1 := Entered(lives, BLANK, calls[0].call, 0);
    var life := Life([Issue(a, 0)], Issue(r, 0));
    assert l1.sessions[(userID, sessionID)] == life;
    assert Due(lives, life) == Some(MaxInt(lives.access, lives.refresh));
    assert InForce(lives, l1, userID, sessionID, at);
    var l2 := Entered(lives, l1, calls[1].call, at);
    assert l2.sessions[(userID, sessionID)] == Renew(life, Access, Issue(b, at));
    assert [Issue(a, 0)] + [Issue(b, at)] == [Issue(a, 0), Issue(b, at)];
    assert calls[1..][0] == calls[1] && calls[1..][1..] == [];
    assert Entries(lives, BLANK, calls) == Entries(lives, l1, calls[1..]) == l2;
    assert ValidRun(lives, l1, 0, calls[1..]);
  }

  /**
   After an access rotation at `at` the old access token validates for one more minute, in nanoseconds, but not
   beyond its own expiry; the new one for its whole life, and the refresh token for what is left of its own.
   */
  lemma GraceInNumbers(lives: Lives, userID: int, sessionID: string, a: string, r: string, b: string, at: int, now: int)
    requires sessionID != "" && a != "" && r != "" && b != "" && a != r && a != b && r != b
    requires 0 <= at < lives.access && at <= now
    ensures var c := Run(lives, EMPTY, LoginAndRotation(userID, sessionID, a, r, b, at));
            && (Valid(c, userID, Access, a, now) <==> now < lives.access && now < at + 60_000_000_000)
            && (Valid(c, userID, Access, b, now) <==> now < at + lives.access)
            && (Valid(c, userID, Refresh, r, now) <==> now < lives.refresh)
            && !Valid(c, userID, Refresh, a, now) && !Valid(c, userID, Refresh, b, now) && !Valid(c, userID, Access, r, now)
  {
    var calls := LoginAndRotation(userID, sessionID, a, r, b, at);
    LoginAndRotationLedger(lives, userID, sessionID, a, r, b, at);
    hide Run, Entries, ValidRun, LoginAndRotation, Valid, EndTime;
    RotationGrace(lives, 0, calls, userID, sessionID, Access, a, now);
    RotationGrace(lives, 0, calls, userID, sessionID, Access, b, now);
    RotationGrace(lives, 0, calls, userID, sessionID, Access, r, now);
    RotationGrace(lives, 0, calls, userID, sessionID, Refresh, a, now);
    RotationGrace(lives, 0, calls, userID, sessionID, Refresh, b, now);
    RotationGrace(lives, 0, calls, userID, sessionID, Refresh, r, now);
  }

  // ---------- a validation that takes its time ----------

  /** The session's newest token of the kind has not expired. */
  predicate SessionUnexpired(lives: Lives, l: Ledger, userID: int, sessionID: string, kind: Kind, now: int) {
    && (userID, sessionID) in l.sessions && l.sessions[(userID, sessionID)].access != []
    && now < if kind.Access? then Newest(l.sessions[(userID, sessionID)]).at + lives.access
             else l.sessions[(userID, sessionID)].refresh.at + lives.refresh
  }

  /** The token was stored for the user and expired between the two readings; some session has an unexpired one. */
  ghost predicate ExpiredMeanwhile(lives: Lives, l: Ledger, userID: int, kind: Kind, token: string, now: int,
                                   later: int) {
    && token != "" && PlainGrants(lives, l, userID, kind, token, now) && !PlainGrants(lives, l, userID, kind, token, later)
    && exists sid :: SessionUnexpired(lives, l, userID, sid, kind, later)
  }

  lemma UnexpiredLaw(lives: Lives, c: SessionCache, l: Ledger, clock: int, userID: int, kind: Kind, now: int)
    requires Kept(lives, c, l, clock) && clock <= now
    ensures (exists sid :: sid in Sessions(c, userID, now) && Unexpired(Sessions(c, userID, now)[sid], kind, now)) <==>
            exists sid :: SessionUnexpired(lives, l, userID, sid, kind, now)
  {
    forall sid
      ensures sid in Sessions(c, userID, now) && Unexpired(Sessions(c, userID, now)[sid], kind, now) <==>
              SessionUnexpired(lives, l, userID, sid, kind, now)
    {
      assert SessionKept(lives, c, l, userID, sid, clock);
      SessionListed(lives, c, l, userID, sid, clock, now);
    }
  }

  /** A token stored for the user alone is accepted by no session. */
  lemma PlainAlone(lives: Lives, l: Ledger, clock: int, userID: int, kind: Kind, token: string, now: int, later: int)
    requires LedgerGood(l, clock) && PlainGrants(lives, l, userID, kind, token, now)
    ensures forall sid :: !SessionGrants(lives, l, userID, sid, kind, token, later)
  {
    assert Owned(l.issued, token, Sessionless(userID));
    forall sid ensures !SessionGrants(lives, l, userID, sid, kind, token, later) {
      if (userID, sid) in l.sessions {
        assert LifeGood(l, userID, sid, l.sessions[(userID, sid)], clock);
      }
    }
  }

  /**
   A validation reads the clock twice. In every reachable cache its answer is the right one at the later
   reading, except that a token which has expired between the two readings still counts if some session of
   the user has an unexpired token of the kind; it was valid at the first reading then.
   */
  lemma ValidatedLaw(lives: Lives, clock: int, calls: seq<Timed>, userID: int, kind: Kind, token: string, now: int,
                     later: int)
    requires ValidRun(lives, BLANK, clock, calls) && EndTime(clock, calls) <= now <= later
    ensures var c, l := Run(lives, EMPTY, calls), Entries(lives, BLANK, calls);
            var late := ExpiredMeanwhile(lives, l, userID, kind, token, now, later);
            && (Validated(c, userID, kind, token, now, later) <==> Valid(c, userID, kind, token, later) || late)
            && (late ==> Valid(c, userID, kind, token, now) && !Valid(c, userID, kind, token, later))
  {
    NothingKept(lives, clock);
    RunKeeps(lives, EMPTY, BLANK, clock, calls);
    var c, l, end := Run(lives, EMPTY, calls), Entries(lives, BLANK, calls), EndTime(clock, calls);
    hide Kept, LedgerGood, SessionAccepts, PlainGrants, SessionGrants, Run, Entries, ValidRun, Sessions, SessionUnexpired, Unexpired;
    PlainLaw(lives, c, l, end, userID, kind, token, now);
    PlainLaw(lives, c, l, end, userID, kind, token, later);
    UnexpiredLaw(lives, c, l, end, userID, kind, later);
    if token != "" && PlainGrants(lives, l, userID, kind, token, now) {
      SessionLaw(lives, c, l, end, userID, kind, token, later);
      PlainAlone(lives, l, end, userID, kind, token, now, later);
    }
  }

  const SLOW_LIVES := Lives(15, 30)

  /** A token of no session that expires at 15, and a session whose access token expires at 24. */
  const SLOW_RUN: seq<Timed> := [Timed(Login(1, "", "a", "r"), 0), Timed(Login(1, "s", "b", "q"), 9)]

  /** A validation that starts at 10 and ends at 20 accepts the expired token. */
  lemma ExpiredTokenCounts()
    ensures ValidRun(SLOW_LIVES, BLANK, 0, SLOW_RUN) && EndTime(0, SLOW_RUN) == 9
    ensures var c := Run(SLOW_LIVES, EMPTY, SLOW_RUN);
            Validated(c, 1, Access, "a", 10, 20) && !Valid(c, 1, Access, "a", 20)
  {
    var first, second := SLOW_RUN[0], SLOW_RUN[1];
    var l1 := Entered(SLOW_LIVES, BLANK, first.call, first.at);
    var l2 := Entered(SLOW_LIVES, l1, second.call, second.at);
    assert SLOW_RUN[1..][0] == second && SLOW_RUN[1..][1..] == [];
    assert Entries(SLOW_LIVES, BLANK, SLOW_RUN) == Entries(SLOW_LIVES, l1, SLOW_RUN[1..]) == l2;
    assert ValidRun(SLOW_LIVES, BLANK, 0, SLOW_RUN) by {
      assert ValidRun(SLOW_LIVES, l1, 0, SLOW_RUN[1..]);
    }
    assert SessionUnexpired(SLOW_LIVES, l2, 1, "s", Access, 20);
    assert ExpiredMeanwhile(SLOW_LIVES, l2, 1, Access, "a", 10, 20);
    ValidatedLaw(SLOW_LIVES, 0, SLOW_RUN, 1, Access, "a", 10, 20);
  }

  // ---------- other sessions ----------

  /** The calls that can make a difference to a session: its own, and the removal of everything of its user. */
  predicate Concerns(call: Call, userID: int, sessionID: string) {
    match call
    case Login(user, sid, _, _) => user == userID && sid == sessionID
    case Rotate(user, sid, _, _) => user == userID && sid == sessionID
    case Revoke(user, sid) => user == userID && (sid == sessionID || sid == "")
    case _ => false
  }

  function CallsOn(calls: seq<Timed>, userID: int, sessionID: string): seq<Timed> {
    if calls == [] then []
    else (if Concerns(calls[0].call, userID, sessionID) then [calls[0]] else []) + CallsOn(calls[1..], userID, sessionID)
  }

  /** Two ledgers that agree about one session; the second has issued no more than the first. */
  ghost predicate AgreeOn(l: Ledger, l': Ledger, userID: int, sessionID: string) {
    var k := (userID, sessionID);
    && (k in l.sessions <==> k in l'.sessions) && (k in l.sessions ==> l.sessions[k] == l'.sessions[k])
    && (forall token :: token in l'.issued ==> token in l.issued)
    && (forall token :: Owned(l.issued, token, OfSession(userID, sessionID)) <==>
                        Owned(l'.issued, token, OfSession(userID, sessionID)))
  }

  lemma StepTogether(lives: Lives, l: Ledger, l': Ledger, call: Call, at: int, userID: int, sessionID: string)
    requires sessionID != "" && AgreeOn(l, l', userID, sessionID) && Allowed(l, call)
    ensures Allowed(l', call)
    ensures AgreeOn(Entered(lives, l, call, at), if Concerns(call, userID, sessionID) then Entered(lives, l', call, at) else l',
                    userID, sessionID)
  {
    if Concerns(call, userID, sessionID) {
      StepBoth(lives, l, l', call, at, userID, sessionID);
    } else {
      StepAlone(lives, l, l', call, at, userID, sessionID);
    }
  }

  lemma StepBoth(lives: Lives, l: Ledger, l': Ledger, call: Call, at: int, userID: int, sessionID: string)
    requires sessionID != "" && AgreeOn(l, l', userID, sessionID) && Allowed(l, call) && Concerns(call, userID, sessionID)
    ensures Allowed(l', call) && AgreeOn(Entered(lives, l, call, at), Entered(lives, l', call, at), userID, sessionID)
  {
    hide AgreeOn, Entered, Allowed;
    match call
    case Login(_, _, _, _) => LoginBoth(lives, l, l', call, at, userID, sessionID);
    case Rotate(_, _, _, _) => RotateBoth(lives, l, l', call, at, userID, sessionID);
    case Revoke(_, _) => RevokeBoth(lives, l, l', call, at, userID, sessionID);
  }

  lemma LoginBoth(lives: Lives, l: Ledger, l': Ledger, call: Call, at: int, userID: int, sessionID: string)
    requires sessionID != "" && AgreeOn(l, l', userID, sessionID) && Allowed(l, call)
    requires call.Login? && Concerns(call, userID, sessionID)
    ensures Allowed(l', call) && AgreeOn(Entered(lives, l, call, at), Entered(lives, l', call, at), userID, sessionID)
  {
    hide InForce;
    var owner, after, after' := OfSession(userID, sessionID), Entered(lives, l, call, at), Entered(lives, l', call, at);
    forall token ensures Owned(after.issued, token, owner) <==> Owned(after'.issued, token, owner) {
      assert Owned(l.issued, token, owner) <==> Owned(l'.issued, token, owner);
    }
  }

  lemma RotateBoth(lives: Lives, l: Ledger, l': Ledger, call: Call, at: int, userID: int, sessionID: string)
    requires sessionID != "" && AgreeOn(l, l', userID, sessionID) && Allowed(l, call)
    requires call.Rotate? && Concerns(call, userID, sessionID)
    ensures Allowed(l', call) && AgreeOn(Entered(lives, l, call, at), Entered(lives, l', call, at), userID, sessionID)
  {
    hide Due;
    assert InForce(lives, l, userID, sessionID, at) == InForce(lives, l', userID, sessionID, at);
    hide InForce, Renew;
    var owner, after, after' := OfSession(userID, sessionID), Entered(lives, l, call, at), Entered(lives, l', call, at);
    forall token ensures Owned(after.issued, token, owner) <==> Owned(after'.issued, token, owner) {
      assert Owned(l.issued, token, owner) <==> Owned(l'.issued, token, owner);
    }
  }

  lemma RevokeBoth(lives: Lives, l: Ledger, l': Ledger, call: Call, at: int, userID: int, sessionID: string)
    requires sessionID != "" && AgreeOn(l, l', userID, sessionID)
    requires call.Revoke? && Concerns(call, userID, sessionID)
    ensures Allowed(l', call) && AgreeOn(Entered(lives, l, call, at), Entered(lives, l', call, at), userID, sessionID)
  {
    hide InForce, Owned;
  }

  lemma StepAlone(lives: Lives, l: Ledger, l': Ledger, call: Call, at: int, userID: int, sessionID: string)
    requires sessionID != "" && AgreeOn(l, l', userID, sessionID) && Allowed(l, call) && !Concerns(call, userID, sessionID)
    ensures Allowed(l', call) && AgreeOn(Entered(lives, l, call, at), l', userID, sessionID)
  {
    hide InForce;
    var k, after := (userID, sessionID), Entered(lives, l, call, at);
    assert k in l.sessions <==> k in after.sessions;
    forall token
      ensures Owned(after.issued, token, OfSession(userID, sessionID)) <==> Owned(l.issued, token, OfSession(userID, sessionID))
    {
    }
  }

  lemma {:induction false} OwnCalls(lives: Lives, l: Ledger, l': Ledger, clock: int, calls: seq<Timed>, userID: int,
                                    sessionID: string)
    requires sessionID != "" && AgreeOn(l, l', userID, sessionID) && ValidRun(lives, l, clock, calls)
    ensures ValidRun(lives, l', clock, CallsOn(calls, userID, sessionID))
    ensures AgreeOn(Entries(lives, l, calls), Entries(lives, l', CallsOn(calls, userID, sessionID)), userID, sessionID)
    decreases |calls|
  {
    hide AgreeOn, Entered, Allowed, Concerns;
    if calls == [] {
    } else {
      var call, at, rest := calls[0].call, calls[0].at, CallsOn(calls[1..], userID, sessionID);
      StepTogether(lives, l, l', call, at, userID, sessionID);
      if Concerns(call, userID, sessionID) {
        assert ([calls[0]] + rest)[1..] == rest;
        OwnCalls(lives, Entered(lives, l, call, at), Entered(lives, l', call, at), at, calls[1..], userID, sessionID);
      } else {
        assert [] + rest == rest;
        OwnCalls(lives, Entered(lives, l, call, at), l', at, calls[1..], userID, sessionID);
        EarlierStart(lives, l', clock, at, rest);
      }
    }
  }

  lemma EarlierStart(lives: Lives, l: Ledger, clock: int, at: int, calls: seq<Timed>)
    requires clock <= at && ValidRun(lives, l, at, calls)
    ensures ValidRun(lives, l, clock, calls)
  {
  }

  lemma {:induction false} OwnEnds(lives: Lives, l: Ledger, clock: int, calls: seq<Timed>, userID: int,
                                   sessionID: string)
    requires ValidRun(lives, l, clock, calls)
    ensures clock <= EndTime(clock, calls) && EndTime(clock, CallsOn(calls, userID, sessionID)) <= EndTime(clock, calls)
    decreases |calls|
  {
    hide Entered, Allowed, Concerns;
    if calls == [] {
    } else {
      OwnEnds(lives, Entered(lives, l, calls[0].call, calls[0].at), calls[0].at, calls[1..], userID, sessionID);
      var rest := CallsOn(calls[1..], userID, sessionID);
      assert EndTime(calls[0].at, calls[1..]) == EndTime(clock, calls);
      if rest != [] {
        assert ([calls[0]] + rest)[|rest|] == rest[|rest| - 1];
        assert EndTime(clock, rest) == EndTime(calls[0].at, rest);
        assert EndTime(clock, [calls[0]] + rest) == EndTime(clock, rest);
      }
      assert [] + rest == rest;
    }
  }

  /** Calls on other sessions change nothing: a session's tokens validate as if only its own calls had been made. */
  lemma OthersChangeNothing(lives: Lives, clock: int, calls: seq<Timed>, userID: int, sessionID: string,
                            kind: Kind, token: string, now: int)
    requires ValidRun(lives, BLANK, clock, calls) && EndTime(clock, calls) <= now
    requires sessionID != "" && Owned(Entries(lives, BLANK, calls).issued, token, OfSession(userID, sessionID))
    ensures Valid(Run(lives, EMPTY, calls), userID, kind, token, now)
         == Valid(Run(lives, EMPTY, CallsOn(calls, userID, sessionID)), userID, kind, token, now)
  {
    var own := CallsOn(calls, userID, sessionID);
    OwnCalls(lives, BLANK, BLANK, clock, calls, userID, sessionID);
    OwnEnds(lives, BLANK, clock, calls, userID, sessionID);
    hide Run, Entries, Valid, ValidRun;
    RotationGrace(lives, clock, calls, userID, sessionID, kind, token, now);
    RotationGrace(lives, clock, own, userID, sessionID, kind, token, now);
    SameGrants(lives, Entries(lives, BLANK, calls), Entries(lives, BLANK, own), userID, sessionID, kind, token, now);
  }

  lemma SameGrants(lives: Lives, l: Ledger, l': Ledger, userID: int, sessionID: string, kind: Kind, token: string,
                   now: int)
    requires AgreeOn(l, l', userID, sessionID)
    ensures SessionGrants(lives, l, userID, sessionID, kind, token, now)
         == SessionGrants(lives, l', userID, sessionID, kind, token, now)
  {
  }
}
