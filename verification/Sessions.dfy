/**
 * Sessions and single-use refresh tokens: the session tables of
 * src/server/db.ts and the service of src/server/auth.ts that rotates them.
 * Ids are the random values behind the cookies; the tables keep their hashes,
 * which are taken to be as distinct as the ids.
 */
module Sessions {
  import opened Bytes

  type Id = string

  const HOUR_MS: nat := 60 * 60 * 1000
  const ACCESS_TTL_MS: nat := 48 * HOUR_MS
  const REFRESH_TTL_MS: nat := 30 * 24 * HOUR_MS

  datatype Token = Token(user: nat, expiresAt: nat)

  type Tokens = map<Id, Token>

  datatype Creds = Creds(sessions: Tokens, refresh: Tokens)

  /** The token behind an id, unless it has expired. */
  function Live(m: Tokens, id: Id, now: nat): Option<nat> {
    if id in m && m[id].expiresAt >= now then Some(m[id].user) else None
  }

  function WithoutUser(m: Tokens, user: nat): Tokens {
    map id | id in m && m[id].user != user :: m[id]
  }

  function Unexpired(m: Tokens, now: nat): Tokens {
    map id | id in m && m[id].expiresAt >= now :: m[id]
  }

  datatype Event =
    | Login(user: nat, access: Id, rotated: Id)       // credentials were right
    | Refresh(token: Id, access: Id, rotated: Id)     // ids to hand out if it succeeds
    | Authenticate(session: Id)
    | Logout(session: Id, token: Id)
    | LogoutAll(user: nat)
    | DeleteUser(user: nat)                           // cascades to both tables
    | Prune

  datatype Timed = Timed(event: Event, now: nat)

  function Started(c: Creds, user: nat, access: Id, rotated: Id, now: nat): Creds {
    Creds(c.sessions[access := Token(user, now + ACCESS_TTL_MS)],
          c.refresh[rotated := Token(user, now + REFRESH_TTL_MS)])
  }

  /** What one event does to the tables, and the user it answers with. */
  function Apply(c: Creds, t: Timed): (Creds, Option<nat>) {
    match t.event
    case Login(user, access, rotated) => (Started(c, user, access, rotated, t.now), Some(user))
    case Refresh(token, access, rotated) =>
      var left := c.(refresh := c.refresh - {token});
      (match Live(c.refresh, token, t.now)
       case None => (left, None)
       case Some(user) => (Started(left, user, access, rotated, t.now), Some(user)))
    case Authenticate(session) =>
      var user := Live(c.sessions, session, t.now);
      (if user.None? then c.(sessions := c.sessions - {session}) else c, user)
    case Logout(session, token) => (Creds(c.sessions - {session}, c.refresh - {token}), None)
    case LogoutAll(user) => (Creds(WithoutUser(c.sessions, user), WithoutUser(c.refresh, user)), None)
    case DeleteUser(user) => (Creds(WithoutUser(c.sessions, user), WithoutUser(c.refresh, user)), None)
    case Prune => (Creds(Unexpired(c.sessions, t.now), Unexpired(c.refresh, t.now)), None)
  }

  // --- the code ------------------------------------------------------------------

  class SessionTables {
    var sessions: Tokens
    var refresh: Tokens

    ghost function Contents(): Creds
      reads this
    {
      Creds(sessions, refresh)
    }

    constructor ()
      ensures Contents() == Creds(map[], map[])
    {
      sessions, refresh := map[], map[];
    }

    method CreateSession(id: Id, userId: nat, ttlMs: nat, now: nat)
      modifies this
      ensures Contents() == old(Contents()).(sessions := old(sessions)[id := Token(userId, now + ttlMs)])
    {
      sessions := sessions[id := Token(userId, now + ttlMs)];
    }

    method GetSessionUser(sessionId: Id, now: nat) returns (user: Option<nat>)
      modifies this
      ensures (Contents(), user) == Apply(old(Contents()), Timed(Authenticate(sessionId), now))
    {
      assert sessionId !in sessions ==> sessions - {sessionId} == sessions;
      if sessionId !in sessions {
        return None;
      }
      var row := sessions[sessionId];
      if row.expiresAt < now {
        DeleteSession(sessionId);
        return None;
      }
      return Some(row.user);
    }

    method DeleteSession(sessionId: Id)
      modifies this
      ensures Contents() == old(Contents()).(sessions := old(sessions) - {sessionId})
    {
      sessions := sessions - {sessionId};
    }

    method CreateRefreshToken(id: Id, userId: nat, ttlMs: nat, now: nat)
      modifies this
      ensures Contents() == old(Contents()).(refresh := old(refresh)[id := Token(userId, now + ttlMs)])
    {
      refresh := refresh[id := Token(userId, now + ttlMs)];
    }

    /** Found or not, expired or not, the token is gone afterwards. */
    method ConsumeRefreshToken(refreshId: Id, now: nat) returns (user: Option<nat>)
      modifies this
      ensures user == Live(old(refresh), refreshId, now)
      ensures Contents() == old(Contents()).(refresh := old(refresh) - {refreshId})
    {
      assert refreshId !in refresh ==> refresh - {refreshId} == refresh;
      if refreshId !in refresh {
        return None;
      }
      var row := refresh[refreshId];
      refresh := refresh - {refreshId};
      if row.expiresAt < now {
        return None;
      }
      return Some(row.user);
    }

    method DeleteRefreshToken(refreshId: Id)
      modifies this
      ensures Contents() == old(Contents()).(refresh := old(refresh) - {refreshId})
    {
      refresh := refresh - {refreshId};
    }

    method DeleteAllUserSessions(userId: nat)
      modifies this
      ensures forall now :: Contents() == Apply(old(Contents()), Timed(LogoutAll(userId), now)).0
    {
      sessions := WithoutUser(sessions, userId);
      refresh := WithoutUser(refresh, userId);
    }

    method PruneExpiredSessions(now: nat)
      modifies this
      ensures Contents() == Apply(old(Contents()), Timed(Event.Prune, now)).0
    {
      sessions := Unexpired(sessions, now);
      refresh := Unexpired(refresh, now);
    }
  }

  class AuthService {
    const db: SessionTables

    constructor (db: SessionTables)
      ensures this.db == db
    {
      this.db := db;
    }

    method StartSession(user: nat, access: Id, rotated: Id, now: nat)
      modifies db
      ensures db.Contents() == Started(old(db.Contents()), user, access, rotated, now)
    {
      db.CreateSession(access, user, ACCESS_TTL_MS, now);
      db.CreateRefreshToken(rotated, user, REFRESH_TTL_MS, now);
    }

    method Refresh(refreshId: Id, access: Id, rotated: Id, now: nat) returns (user: Option<nat>)
      modifies db
      ensures (db.Contents(), user)
           == Apply(old(db.Contents()), Timed(Event.Refresh(refreshId, access, rotated), now))
    {
      user := db.ConsumeRefreshToken(refreshId, now);
      if user.Some? {
        StartSession(user.value, access, rotated, now);
      }
    }

    /** Empty ids stand for absent cookies; no row has one. */
    method Logout(accessId: Id, refreshId: Id, now: nat)
      requires "" !in db.sessions && "" !in db.refresh
      modifies db
      ensures db.Contents() == Apply(old(db.Contents()), Timed(Event.Logout(accessId, refreshId), now)).0
    {
      assert "" !in db.sessions ==> db.sessions - {""} == db.sessions;
      assert "" !in db.refresh ==> db.refresh - {""} == db.refresh;
      if accessId != "" {
        db.DeleteSession(accessId);
      }
      if refreshId != "" {
        db.DeleteRefreshToken(refreshId);
      }
    }

    method LogoutAll(userId: nat, now: nat)
      modifies db
      ensures db.Contents() == Apply(old(db.Contents()), Timed(Event.LogoutAll(userId), now)).0
    {
      db.DeleteAllUserSessions(userId);
    }
  }

  // --- runs ----------------------------------------------------------------------

  function After(run: seq<Timed>): Creds {
    if run == [] then Creds(map[], map[]) else Apply(After(run[..|run| - 1]), run[|run| - 1]).0
  }

  /** The answer of event `i`. */
  function AnswerAt(run: seq<Timed>, i: nat): Option<nat>
    requires i < |run|
  {
    Apply(After(run[..i]), run[i]).1
  }

  function Minted(e: Event): set<Id> {
    match e
    case Login(_, access, rotated) => {access, rotated}
    case Refresh(_, access, rotated) => {access, rotated}
    case _ => {}
  }

  function Used(run: seq<Timed>): set<Id> {
    if run == [] then {} else Used(run[..|run| - 1]) + Minted(run[|run| - 1].event)
  }

  /** The clock never goes back, and every id handed out is new. */
  predicate Fresh(run: seq<Timed>) {
    run == []
    || (var init, last := run[..|run| - 1], run[|run| - 1];
        Fresh(init) && Minted(last.event) !! Used(init)
        && (init != [] ==> init[|init| - 1].now <= last.now))
  }

  lemma {:induction false} FreshPrefix(run: seq<Timed>, n: nat)
    requires Fresh(run) && n <= |run|
    ensures Fresh(run[..n])
    decreases |run|
  {
    if n < |run| {
      FreshPrefix(run[..|run| - 1], n);
      assert run[..|run| - 1][..n] == run[..n];
    } else {
      assert run[..n] == run;
    }
  }

  lemma {:induction false} TablesUsed(run: seq<Timed>)
    ensures After(run).sessions.Keys <= Used(run) && After(run).refresh.Keys <= Used(run)
  {
    if run != [] {
      TablesUsed(run[..|run| - 1]);
    }
  }

  lemma {:induction false} UsedGrows(run: seq<Timed>, n: nat)
    requires n <= |run|
    ensures Used(run[..n]) <= Used(run)
    decreases |run|
  {
    if n < |run| {
      UsedGrows(run[..|run| - 1], n);
      assert run[..|run| - 1][..n] == run[..n];
    } else {
      assert run[..n] == run;
    }
  }

  /** An id that was handed out and is not in a table never comes back. */
  lemma {:induction false} GoneStaysGone(run: seq<Timed>, n: nat, id: Id)
    requires Fresh(run) && n <= |run| && id in Used(run[..n])
    ensures id !in After(run[..n]).refresh ==> id !in After(run).refresh
    ensures id !in After(run[..n]).sessions ==> id !in After(run).sessions
    decreases |run|
  {
    if n < |run| {
      var init := run[..|run| - 1];
      assert init[..n] == run[..n];
      GoneStaysGone(init, n, id);
      UsedGrows(init, n);
    } else {
      assert run[..n] == run;
    }
  }

  lemma SnocPrefix(run: seq<Timed>, i: nat)
    requires i < |run|
    ensures run[..i + 1][..i] == run[..i] && run[..i + 1][i] == run[i]
    ensures After(run[..i + 1]) == Apply(After(run[..i]), run[i]).0
    ensures Used(run[..i + 1]) == Used(run[..i]) + Minted(run[i].event)
  {
    assert run[..i + 1][..i] == run[..i];
  }

  // --- main results --------------------------------------------------------------

  /** A refresh token is redeemed at most once. */
  lemma RedeemedOnce(run: seq<Timed>, i: nat, j: nat)
    requires Fresh(run) && i < j < |run|
    requires run[i].event.Refresh? && run[j].event.Refresh? && run[i].event.token == run[j].event.token
    requires AnswerAt(run, i).Some?
    ensures AnswerAt(run, j).None?
  {
    TablesUsed(run[..i]);
    RevokedForGood(run, i, j, run[i].event.token);
  }

  /** Presenting a refresh token, or logging out with it, ends it whatever came of that. */
  lemma RevokedForGood(run: seq<Timed>, i: nat, j: nat, token: Id)
    requires Fresh(run) && i < j < |run| && run[j].event.Refresh? && run[j].event.token == token
    requires token in Used(run[..i])
    requires (run[i].event.Refresh? && run[i].event.token == token)
             || (run[i].event.Logout? && run[i].event.token == token)
    ensures AnswerAt(run, j).None?
  {
    SpentAt(run, i, token);
    FreshPrefix(run, j);
    assert run[..j][..i + 1] == run[..i + 1];
    GoneStaysGone(run[..j], i + 1, token);
  }

  lemma SpentAt(run: seq<Timed>, i: nat, token: Id)
    requires Fresh(run) && i < |run| && token in Used(run[..i])
    requires (run[i].event.Refresh? || run[i].event.Logout?) && run[i].event.token == token
    ensures token !in After(run[..i + 1]).refresh && token in Used(run[..i + 1])
  {
    SnocPrefix(run, i);
    FreshPrefix(run, i + 1);
  }

  /** Logout-all, or the user's deletion, takes the user's rows out of both tables. */
  lemma EndedAt(run: seq<Timed>, i: nat, id: Id)
    requires i < |run| && (run[i].event.LogoutAll? || run[i].event.DeleteUser?)
    ensures Used(run[..i]) <= Used(run[..i + 1])
    ensures var c, c' := After(run[..i]), After(run[..i + 1]);
            && (id in c.sessions && c.sessions[id].user == run[i].event.user ==> id !in c'.sessions)
            && (id in c.refresh && c.refresh[id].user == run[i].event.user ==> id !in c'.refresh)
  {
    SnocPrefix(run, i);
  }

  /** After logout-all (or the user's deletion) nothing the user held before works. */
  lemma LogoutAllEndsEverything(run: seq<Timed>, i: nat, j: nat, id: Id)
    requires Fresh(run) && i < j < |run|
    requires run[i].event.LogoutAll? || run[i].event.DeleteUser?
    requires (id in After(run[..i]).sessions && After(run[..i]).sessions[id].user == run[i].event.user
              && run[j].event == Authenticate(id))
             || (id in After(run[..i]).refresh && After(run[..i]).refresh[id].user == run[i].event.user
                 && run[j].event.Refresh? && run[j].event.token == id)
    ensures AnswerAt(run, j).None?
  {
    TablesUsed(run[..i]);
    EndedAt(run, i, id);
    FreshPrefix(run, j);
    assert run[..j][..i + 1] == run[..i + 1];
    GoneStaysGone(run[..j], i + 1, id);
  }

  /** Event `i` put this refresh token in the table. */
  ghost predicate MintedBy(run: seq<Timed>, i: nat, id: Id, token: Token) {
    i < |run|
    && (run[i].event.Login? || run[i].event.Refresh?) && run[i].event.rotated == id
    && AnswerAt(run, i) == Some(token.user) && token.expiresAt == run[i].now + REFRESH_TTL_MS
  }

  lemma MintedByLonger(run: seq<Timed>, run': seq<Timed>, i: nat, id: Id, token: Token)
    requires |run| <= |run'| && run'[..|run|] == run && MintedBy(run, i, id, token)
    ensures MintedBy(run', i, id, token)
  {
    assert run'[..i] == run[..i];
  }

  lemma {:induction false} EveryTokenMinted(run: seq<Timed>, id: Id)
    requires id in After(run).refresh
    ensures exists i: nat :: MintedBy(run, i, id, After(run).refresh[id])
  {
    var n := |run| - 1;
    var init, last := run[..n], run[n];
    var token := After(run).refresh[id];
    if id in After(init).refresh && After(init).refresh[id] == token {
      EveryTokenMinted(init, id);
      var i: nat :| MintedBy(init, i, id, token);
      MintedByLonger(init, run, i, id, token);
    } else {
      assert MintedBy(run, n, id, token);
    }
  }

  /** A successful refresh redeems a token that some sign-in or rotation of that user handed out, in time. */
  lemma RedeemedInTime(run: seq<Timed>, j: nat)
    requires j < |run| && run[j].event.Refresh? && AnswerAt(run, j).Some?
    ensures exists i: nat :: i < j && (run[i].event.Login? || run[i].event.Refresh?)
              && run[i].event.rotated == run[j].event.token
              && AnswerAt(run, i) == AnswerAt(run, j)
              && run[j].now <= run[i].now + REFRESH_TTL_MS
  {
    var id := run[j].event.token;
    EveryTokenMinted(run[..j], id);
    var i: nat :| MintedBy(run[..j], i, id, After(run[..j]).refresh[id]);
    MintedByLonger(run[..j], run, i, id, After(run[..j]).refresh[id]);
  }

  // --- what works, and how long --------------------------------------------------

  /** The two kinds of id: access sessions, and the refresh tokens that extend them. */
  datatype Kind = Access | Renewal

  function Table(kind: Kind, c: Creds): Tokens {
    if kind.Access? then c.sessions else c.refresh
  }

  function Lifetime(kind: Kind): nat {
    if kind.Access? then ACCESS_TTL_MS else REFRESH_TTL_MS
  }

  /** The event hands out `id` of this kind, if it succeeds. */
  predicate Offers(kind: Kind, e: Event, id: Id) {
    match e
    case Login(_, access, rotated) => id == if kind.Access? then access else rotated
    case Refresh(_, access, rotated) => id == if kind.Access? then access else rotated
    case _ => false
  }

  /** The event ends `id`, held by `user`: signing out with it or everywhere, the user's deletion, or redeeming it. */
  predicate Ends(kind: Kind, e: Event, id: Id, user: nat) {
    match e
    case Logout(session, token) => id == if kind.Access? then session else token
    case LogoutAll(u) => u == user
    case DeleteUser(u) => u == user
    case Refresh(token, _, _) => kind.Renewal? && token == id
    case _ => false
  }

  /** Event `i` handed out `id` to `user`, not too long before `now`, and nothing has ended it since. */
  predicate Holds(kind: Kind, run: seq<Timed>, i: nat, id: Id, user: nat, now: nat) {
    && i < |run|
    && Offers(kind, run[i].event, id) && AnswerAt(run, i) == Some(user)
    && now <= run[i].now + Lifetime(kind)
    && forall k :: i < k < |run| ==> !Ends(kind, run[k].event, id, user)
  }

  /** One event: what it hands out works, what it ends does not, and nothing else changes. */
  lemma LiveStep(kind: Kind, c: Creds, t: Timed, id: Id, user: nat, now: nat)
    requires t.now <= now
    ensures var works := Live(Table(kind, Apply(c, t).0), id, now) == Some(user);
            if Offers(kind, t.event, id) && Apply(c, t).1.Some?
            then works <==> Apply(c, t).1 == Some(user) && now <= t.now + Lifetime(kind)
            else works <==> Live(Table(kind, c), id, now) == Some(user) && !Ends(kind, t.event, id, user)
  {}

  lemma HolderUsed(kind: Kind, run: seq<Timed>, i: nat, id: Id)
    requires i < |run| && Offers(kind, run[i].event, id)
    ensures id in Used(run)
  {
    SnocPrefix(run, i);
    UsedGrows(run, i + 1);
  }

  lemma HoldsLonger(kind: Kind, init: seq<Timed>, last: Timed, i: nat, id: Id, user: nat, now: nat)
    requires i < |init|
    ensures Holds(kind, init + [last], i, id, user, now)
            <==> Holds(kind, init, i, id, user, now) && !Ends(kind, last.event, id, user)
  {
    var run := init + [last];
    assert run[..i] == init[..i] && run[i] == init[i];
    if Holds(kind, run, i, id, user, now) {
      assert !Ends(kind, run[|init|].event, id, user);
      forall k | i < k < |init|
        ensures !Ends(kind, init[k].event, id, user)
      {
        assert run[k] == init[k];
      }
    }
  }

  ghost predicate HeldBySome(kind: Kind, run: seq<Timed>, id: Id, user: nat, now: nat) {
    exists i: nat :: Holds(kind, run, i, id, user, now)
  }

  lemma HeldByEarlier(kind: Kind, init: seq<Timed>, last: Timed, id: Id, user: nat, now: nat)
    ensures HeldBySome(kind, init + [last], id, user, now)
            <==> Holds(kind, init + [last], |init|, id, user, now)
                 || (HeldBySome(kind, init, id, user, now) && !Ends(kind, last.event, id, user))
  {
    var run := init + [last];
    if i: nat :| i < |init| && Holds(kind, run, i, id, user, now) {
      HoldsLonger(kind, init, last, i, id, user, now);
    }
    if i: nat :| Holds(kind, init, i, id, user, now) {
      HoldsLonger(kind, init, last, i, id, user, now);
    }
  }

  lemma HoldsLast(kind: Kind, init: seq<Timed>, last: Timed, id: Id, user: nat, now: nat)
    ensures Holds(kind, init + [last], |init|, id, user, now)
            <==> Offers(kind, last.event, id) && Apply(After(init), last).1 == Some(user)
                 && now <= last.now + Lifetime(kind)
  {
    assert (init + [last])[..|init|] == init;
  }

  /** An id works exactly as long as whoever it was handed to holds it. */
  lemma {:induction false} LiveExactly(kind: Kind, run: seq<Timed>, id: Id, user: nat, now: nat)
    requires Fresh(run) && (run != [] ==> run[|run| - 1].now <= now)
    ensures Live(Table(kind, After(run)), id, now) == Some(user) <==> HeldBySome(kind, run, id, user, now)
  {
    if run != [] {
      var init, last := run[..|run| - 1], run[|run| - 1];
      assert init + [last] == run;
      LiveExactly(kind, init, id, user, now);
      LiveStep(kind, After(init), last, id, user, now);
      HeldByEarlier(kind, init, last, id, user, now);
      HoldsLast(kind, init, last, id, user, now);
      if Offers(kind, last.event, id) {
        NotHeldBefore(kind, init, last, id, user, now);
      }
    }
  }

  /** A new id was never handed out before. */
  lemma NotHeldBefore(kind: Kind, init: seq<Timed>, last: Timed, id: Id, user: nat, now: nat)
    requires Offers(kind, last.event, id) && Minted(last.event) !! Used(init)
    ensures !HeldBySome(kind, init, id, user, now)
  {
    if i: nat :| Holds(kind, init, i, id, user, now) {
      HolderUsed(kind, init, i, id);
    }
  }

  /** `id` was handed out to `user` before event `j`, in time for it, and was not ended in between. */
  predicate HandedOut(kind: Kind, run: seq<Timed>, i: nat, j: nat, id: Id, user: nat)
    requires i < j < |run|
  {
    && Offers(kind, run[i].event, id) && AnswerAt(run, i) == Some(user)
    && run[j].now <= run[i].now + Lifetime(kind)
    && forall k :: i < k < j ==> !Ends(kind, run[k].event, id, user)
  }

  lemma HoldsAt(kind: Kind, run: seq<Timed>, i: nat, j: nat, id: Id, user: nat)
    requires i < j < |run|
    ensures Holds(kind, run[..j], i, id, user, run[j].now) <==> HandedOut(kind, run, i, j, id, user)
  {
    assert run[..j][..i] == run[..i];
    assert forall k :: 0 <= k < j ==> run[..j][k] == run[k];
  }

  /**
   * A request is let in as `user` exactly if its session was handed out to
   * that user by a sign-in or rotation within the last 48 hours, and the user
   * has not signed out of it, or everywhere, or been deleted, since.
   */
  lemma AuthenticatedExactly(run: seq<Timed>, j: nat, user: nat)
    requires Fresh(run) && j < |run| && run[j].event.Authenticate?
    ensures AnswerAt(run, j) == Some(user)
            <==> exists i: nat :: i < j && HandedOut(Access, run, i, j, run[j].event.session, user)
  {
    WorksAt(Access, run, j, run[j].event.session, user);
  }

  /** A refresh succeeds exactly if its token was handed out in the last 30 days and neither used nor ended since. */
  lemma RefreshedExactly(run: seq<Timed>, j: nat, user: nat)
    requires Fresh(run) && j < |run| && run[j].event.Refresh?
    ensures AnswerAt(run, j) == Some(user)
            <==> exists i: nat :: i < j && HandedOut(Renewal, run, i, j, run[j].event.token, user)
  {
    WorksAt(Renewal, run, j, run[j].event.token, user);
  }

  lemma WorksAt(kind: Kind, run: seq<Timed>, j: nat, id: Id, user: nat)
    requires Fresh(run) && j < |run|
    ensures Live(Table(kind, After(run[..j])), id, run[j].now) == Some(user)
            <==> exists i: nat :: i < j && HandedOut(kind, run, i, j, id, user)
  {
    FreshPrefix(run, j);
    FreshPrefix(run, j + 1);
    assert run[..j + 1][..j] == run[..j];
    LiveExactly(kind, run[..j], id, user, run[j].now);
    if i: nat :| Holds(kind, run[..j], i, id, user, run[j].now) {
      HoldsAt(kind, run, i, j, id, user);
    }
    if i: nat :| i < j && HandedOut(kind, run, i, j, id, user) {
      HoldsAt(kind, run, i, j, id, user);
    }
  }

  // --- pruning -------------------------------------------------------------------

  /** The same run with its prunes taken out. */
  function Unpruned(run: seq<Timed>): Creds {
    if run == [] then Creds(map[], map[])
    else
      var c, last := Unpruned(run[..|run| - 1]), run[|run| - 1];
      if last.event.Prune? then c else Apply(c, last).0
  }

  ghost predicate SameTokens(pruned: Tokens, full: Tokens, now: nat) {
    && (forall id :: id in pruned ==> id in full && pruned[id] == full[id])
    && (forall id :: id in full && id !in pruned ==> full[id].expiresAt < now)
  }

  ghost predicate SameCreds(pruned: Creds, full: Creds, now: nat) {
    SameTokens(pruned.sessions, full.sessions, now) && SameTokens(pruned.refresh, full.refresh, now)
  }

  lemma SameInsert(pruned: Tokens, full: Tokens, id: Id, token: Token, now: nat)
    requires SameTokens(pruned, full, now)
    ensures SameTokens(pruned[id := token], full[id := token], now)
  {}

  lemma SameWithout(pruned: Tokens, full: Tokens, id: Id, user: nat, now: nat)
    requires SameTokens(pruned, full, now)
    ensures SameTokens(pruned - {id}, full - {id}, now)
    ensures SameTokens(WithoutUser(pruned, user), WithoutUser(full, user), now)
    ensures SameTokens(Unexpired(pruned, now), full, now)
    ensures Live(pruned, id, now) == Live(full, id, now)
  {}

  lemma SameStarted(pruned: Creds, full: Creds, user: nat, access: Id, rotated: Id, now: nat)
    requires SameCreds(pruned, full, now)
    ensures SameCreds(Started(pruned, user, access, rotated, now), Started(full, user, access, rotated, now), now)
  {
    SameInsert(pruned.sessions, full.sessions, access, Token(user, now + ACCESS_TTL_MS), now);
    SameInsert(pruned.refresh, full.refresh, rotated, Token(user, now + REFRESH_TTL_MS), now);
  }

  lemma SameApply(pruned: Creds, full: Creds, t: Timed)
    requires SameCreds(pruned, full, t.now)
    ensures Apply(pruned, t).1 == Apply(full, t).1
    ensures SameCreds(Apply(pruned, t).0, if t.event.Prune? then full else Apply(full, t).0, t.now)
  {
    match t.event
    case Login(user, access, rotated) =>
      SameStarted(pruned, full, user, access, rotated, t.now);
    case Refresh(token, access, rotated) =>
      SameWithout(pruned.refresh, full.refresh, token, 0, t.now);
      var p, f := pruned.(refresh := pruned.refresh - {token}), full.(refresh := full.refresh - {token});
      if Live(full.refresh, token, t.now).Some? {
        SameStarted(p, f, Live(full.refresh, token, t.now).value, access, rotated, t.now);
      }
    case Authenticate(session) =>
      SameWithout(pruned.sessions, full.sessions, session, 0, t.now);
    case Logout(session, token) =>
      SameWithout(pruned.sessions, full.sessions, session, 0, t.now);
      SameWithout(pruned.refresh, full.refresh, token, 0, t.now);
    case LogoutAll(user) =>
      SameWithout(pruned.sessions, full.sessions, "", user, t.now);
      SameWithout(pruned.refresh, full.refresh, "", user, t.now);
    case DeleteUser(user) =>
      SameWithout(pruned.sessions, full.sessions, "", user, t.now);
      SameWithout(pruned.refresh, full.refresh, "", user, t.now);
    case Prune =>
      SameWithout(pruned.sessions, full.sessions, "", 0, t.now);
      SameWithout(pruned.refresh, full.refresh, "", 0, t.now);
  }

  lemma {:induction false} SameRun(run: seq<Timed>)
    requires Fresh(run) && run != []
    ensures SameCreds(After(run), Unpruned(run), run[|run| - 1].now)
  {
    var init, last := run[..|run| - 1], run[|run| - 1];
    if init != [] {
      SameRun(init);
    }
    SameApply(After(init), Unpruned(init), last);
  }

  /** Pruning expired rows, whenever it happens, never changes an answer. */
  lemma PruningInvisible(run: seq<Timed>, j: nat)
    requires Fresh(run) && j < |run|
    ensures AnswerAt(run, j) == Apply(Unpruned(run[..j]), run[j]).1
  {
    FreshPrefix(run, j);
    if j > 0 {
      SameRun(run[..j]);
      FreshPrefix(run, j + 1);
      assert run[..j + 1][..j] == run[..j];
    }
    SameApply(After(run[..j]), Unpruned(run[..j]), run[j]);
  }
}
