/**
 * The session lifecycle: login, refresh, single-session revocation and
 * revoke-all, as operations of the authentication service over the user and
 * session tables. Each operation scans the user's sessions in list order and
 * acts on the first one whose stored hash verifies the presented refresh
 * token.
 */
module Auth {
  import opened Wrappers
  import opened Tables
  import opened Settings
  import opened Schemas
  import opened Errors
  import opened Sessions
  import opened Users

  /** The session columns a login or refresh writes for the current client. */
  function Renewal(client: ClientInfo, hash: string, expiresAt: int): SessionUpdate {
    SessionUpdate(hash, expiresAt, client.userAgent, client.fingerprint, client.ip)
  }

  /** The table after `revoke_all_sessions(user_id)`. */
  function WithoutUser(rows: seq<Session>, userId: nat): (r: seq<Session>)
    ensures forall s :: s in r <==> s in rows && s.userId != userId
    ensures |r| <= |rows|
  {
    FilterMembers(rows, Not(OwnedBy(userId)));
    Filter(rows, Not(OwnedBy(userId)))
  }

  /** Revoking all of a user's sessions a second time removes nothing more. */
  lemma WithoutUserIdempotent(rows: seq<Session>, userId: nat)
    ensures WithoutUser(WithoutUser(rows, userId), userId) == WithoutUser(rows, userId)
  {
    FilterIdempotent(rows, Not(OwnedBy(userId)));
  }

  /** Revoking all of one user's sessions leaves every other user's list as it was. */
  lemma WithoutUserKeepsOthers(rows: seq<Session>, userId: nat, other: nat)
    requires other != userId
    ensures Filter(WithoutUser(rows, userId), OwnedBy(other)) == Filter(rows, OwnedBy(other))
  {
    FilterCommute(rows, Not(OwnedBy(userId)), OwnedBy(other));
    var owned := Filter(rows, OwnedBy(other));
    FilterMembers(rows, OwnedBy(other));
    forall i | 0 <= i < |owned| ensures Not(OwnedBy(userId))(owned[i]) {
      assert owned[i] in owned;
    }
    FilterKeepsAll(owned, Not(OwnedBy(userId)));
  }

  /**
   * A scan that stops at index `i`, having seen no verifying session before
   * it, found the first match.
   */
  lemma ScanFindsFirst(ss: seq<Session>, verify: (string, string) -> bool, raw: Option<string>, i: nat)
    requires i < |ss| && VerifyRefreshToken(verify, raw, ss[i].refreshToken)
    requires forall j :: 0 <= j < i ==> !VerifyRefreshToken(verify, raw, ss[j].refreshToken)
    ensures FirstMatch(ss, verify, raw) == Some(i)
  {
  }

  /** The user's list is part of the table, so a list row is a table row. */
  lemma ListRowInTable(rows: seq<Session>, userId: int, i: nat)
    requires i < |Filter(rows, OwnedBy(userId))|
    ensures Filter(rows, OwnedBy(userId))[i] in rows
    ensures Filter(rows, OwnedBy(userId))[i].userId == userId
  {
    assert Filter(rows, OwnedBy(userId))[i] in Filter(rows, OwnedBy(userId));
    FilterMembers(rows, OwnedBy(userId));
  }

  /** A row rotated in place keeps its owner and now stores the new hash. */
  lemma RotatedRowStored(rows: seq<Session>, s: Session, u: SessionUpdate)
    requires UniqueIds(rows) && s in rows
    ensures Applied(s, u) in Rotated(rows, s.id, u)
  {
    var k :| 0 <= k < |rows| && rows[k] == s;
    RotatedAt(rows, k, u);
  }

  /**
   * Rotating the `i`-th session of the user's list stores the new hash under
   * the same owner, so the new raw token is found by the next scan.
   */
  lemma RotationStored(rows: seq<Session>, userId: int, i: nat, u: SessionUpdate,
                       verify: (string, string) -> bool, raw: string)
    requires UniqueIds(rows) && i < |Filter(rows, OwnedBy(userId))|
    requires verify(raw, u.refreshToken)
    ensures var after := Rotated(rows, Filter(rows, OwnedBy(userId))[i].id, u);
            FirstMatch(Filter(after, OwnedBy(userId)), verify, Some(raw)).Some?
  {
    var s := Filter(rows, OwnedBy(userId))[i];
    ListRowInTable(rows, userId, i);
    RotatedRowStored(rows, s, u);
    var after := Rotated(rows, s.id, u);
    FilterMembers(after, OwnedBy(userId));
    assert Applied(s, u) in Filter(after, OwnedBy(userId));
    FirstMatchFinds(Filter(after, OwnedBy(userId)), verify, Some(raw), Applied(s, u));
  }

  // ---------------------------------------------------------------------------
  // What a login does to the session table

  /**
   * The position, in the user's list, of the session a login rotates: the
   * first one the presented token verifies. An absent or empty token
   * rotates nothing.
   */
  function RotationTarget(rows: seq<Session>, userId: nat, verify: (string, string) -> bool, presented: Option<string>)
    : (m: Option<nat>)
    ensures m.Some? ==> Truthy(presented) && m.value < |Filter(rows, OwnedBy(userId))|
    ensures m.Some? <==>
              Truthy(presented) && exists s :: s in rows && s.userId == userId && VerifyRefreshToken(verify, presented, s.refreshToken)
  {
    UserScanFinds(rows, userId, verify, presented);
    if Truthy(presented) then FirstMatch(Filter(rows, OwnedBy(userId)), verify, presented) else None
  }

  /** Scanning the user's list finds a match iff some session of the user verifies the token. */
  lemma UserScanFinds(rows: seq<Session>, userId: nat, verify: (string, string) -> bool, presented: Option<string>)
    ensures FirstMatch(Filter(rows, OwnedBy(userId)), verify, presented).Some? <==>
              exists s :: s in rows && s.userId == userId && VerifyRefreshToken(verify, presented, s.refreshToken)
  {
    var list := Filter(rows, OwnedBy(userId));
    FilterMembers(rows, OwnedBy(userId));
    var m := FirstMatch(list, verify, presented);
    if m.Some? {
      assert list[m.value] in list;
    }
    if s :| s in rows && s.userId == userId && VerifyRefreshToken(verify, presented, s.refreshToken) {
      assert s in list;
      FirstMatchFinds(list, verify, presented, s);
    }
  }

  /** The session a login creates when it rotates none. */
  function NewSession(id: nat, userId: nat, client: ClientInfo, hash: string, expiresAt: int, now: int): Session {
    Session(id, userId, hash, client.fingerprint, client.userAgent, client.ip, expiresAt, now)
  }

  /**
   * The session table after a successful login of `userId` at `now`: the
   * rotated table when a session matched, otherwise the table with the new
   * session appended and the cap enforced.
   */
  function LoginTable(rows: seq<Session>, nextId: nat, userId: nat, client: ClientInfo, verify: (string, string) -> bool,
                      hash: string, expiresAt: int, now: int): seq<Session>
  {
    match RotationTarget(rows, userId, verify, client.refreshToken)
    case Some(i) => Rotated(rows, Filter(rows, OwnedBy(userId))[i].id, Renewal(client, hash, expiresAt))
    case None => LimitEnforced(rows + [NewSession(nextId, userId, client, hash, expiresAt, now)], userId, now)
  }

  lemma LoginTableCases(rows: seq<Session>, nextId: nat, userId: nat, client: ClientInfo,
                        verify: (string, string) -> bool, hash: string, expiresAt: int, now: int)
    ensures var target := RotationTarget(rows, userId, verify, client.refreshToken);
            var after := LoginTable(rows, nextId, userId, client, verify, hash, expiresAt, now);
            && (target.Some? ==> after == Rotated(rows, Filter(rows, OwnedBy(userId))[target.value].id, Renewal(client, hash, expiresAt)))
            && (target.None? ==> after == LimitEnforced(rows + [NewSession(nextId, userId, client, hash, expiresAt, now)], userId, now))
  {
  }

  /**
   * A rotating login changes only the matched row, which keeps its id and
   * owner and takes the new hash, expiry and client columns.
   */
  lemma LoginRotatesOnlyMatch(rows: seq<Session>, nextId: nat, userId: nat, client: ClientInfo,
                              verify: (string, string) -> bool, hash: string, expiresAt: int, now: int)
    requires UniqueIds(rows)
    requires RotationTarget(rows, userId, verify, client.refreshToken).Some?
    ensures var after := LoginTable(rows, nextId, userId, client, verify, hash, expiresAt, now);
            var i := RotationTarget(rows, userId, verify, client.refreshToken).value;
            var matched := Filter(rows, OwnedBy(userId))[i];
            exists k :: 0 <= k < |rows| && rows[k] == matched && after == rows[k := Applied(matched, Renewal(client, hash, expiresAt))]
  {
    var i := RotationTarget(rows, userId, verify, client.refreshToken).value;
    var matched := Filter(rows, OwnedBy(userId))[i];
    ListRowInTable(rows, userId, i);
    var k :| 0 <= k < |rows| && rows[k] == matched;
    RotatedAt(rows, k, Renewal(client, hash, expiresAt));
  }

  /**
   * A creating login leaves the user with at most MAX active sessions and
   * never evicts another user's session or an expired one.
   */
  lemma LoginCreateKeepsCap(rows: seq<Session>, nextId: nat, userId: nat, client: ClientInfo,
                            verify: (string, string) -> bool, hash: string, expiresAt: int, now: int)
    requires UniqueIds(rows) && forall s :: s in rows ==> s.id < nextId
    requires RotationTarget(rows, userId, verify, client.refreshToken).None?
    ensures var after := LoginTable(rows, nextId, userId, client, verify, hash, expiresAt, now);
            && |Filter(after, ActiveFor(userId, now))| <= MaxActiveRefreshSessions
            && forall s :: s in rows && (s.userId != userId || s.expiresAt <= now) ==> s in after
  {
    var all := rows + [NewSession(nextId, userId, client, hash, expiresAt, now)];
    FreshIdUnique(rows, NewSession(nextId, userId, client, hash, expiresAt, now));
    LimitEnforcedCount(all, userId, now);
    LimitEnforcedKeepsInactive(all, userId, now);
  }

  /**
   * A rotating login does not run the cap. Rotating a session of the user that
   * had already expired, to an expiry in the future, leaves the user with one
   * active session more than before the login.
   */
  lemma RotatingExpiredAddsActive(rows: seq<Session>, nextId: nat, userId: nat, client: ClientInfo,
                                  verify: (string, string) -> bool, hash: string, expiresAt: int, now: int)
    requires UniqueIds(rows)
    requires RotationTarget(rows, userId, verify, client.refreshToken).Some?
    requires Filter(rows, OwnedBy(userId))[RotationTarget(rows, userId, verify, client.refreshToken).value].expiresAt <= now < expiresAt
    ensures |Filter(LoginTable(rows, nextId, userId, client, verify, hash, expiresAt, now), ActiveFor(userId, now))|
            == |Filter(rows, ActiveFor(userId, now))| + 1
  {
    var i := RotationTarget(rows, userId, verify, client.refreshToken).value;
    var matched := Filter(rows, OwnedBy(userId))[i];
    var u := Renewal(client, hash, expiresAt);
    ListRowInTable(rows, userId, i);
    var k :| 0 <= k < |rows| && rows[k] == matched;
    RotatedAt(rows, k, u);
    FilterUpdateGains(rows, k, Applied(matched, u), ActiveFor(userId, now));
  }

  lemma FreshIdUnique(rows: seq<Session>, s: Session)
    requires UniqueIds(rows) && forall r :: r in rows ==> r.id < s.id
    ensures UniqueIds(rows + [s])
  {
    forall i, j | 0 <= i < j < |rows + [s]| ensures (rows + [s])[i].id != (rows + [s])[j].id {
      if j == |rows| {
        assert rows[i] in rows;
      }
    }
  }

  /**
   * After a login the returned raw token is found by the next scan of the
   * user's sessions: always when a session was rotated, and, when one was
   * created, provided the clock has not gone backwards, so that no row is
   * newer than the new session.
   */
  lemma LoginStoresToken(rows: seq<Session>, nextId: nat, userId: nat, client: ClientInfo,
                         verify: (string, string) -> bool, raw: string, hash: string, expiresAt: int, now: int)
    requires UniqueIds(rows) && forall s :: s in rows ==> s.id < nextId
    requires verify(raw, hash)
    requires RotationTarget(rows, userId, verify, client.refreshToken).Some? ||
             (forall s :: s in rows ==> s.createdAt <= now)
    ensures FirstMatch(Filter(LoginTable(rows, nextId, userId, client, verify, hash, expiresAt, now), OwnedBy(userId)),
                       verify, Some(raw)).Some?
  {
    var after := LoginTable(rows, nextId, userId, client, verify, hash, expiresAt, now);
    match RotationTarget(rows, userId, verify, client.refreshToken)
    case Some(i) =>
      RotationStored(rows, userId, i, Renewal(client, hash, expiresAt), verify, raw);
    case None =>
      var s := NewSession(nextId, userId, client, hash, expiresAt, now);
      FreshIdUnique(rows, s);
      assert s in after by {
        if expiresAt > now {
          NewSessionSurvivesLimit(rows, s, now);
        } else {
          LimitEnforcedKeepsInactive(rows + [s], userId, now);
        }
      }
      FilterMembers(after, OwnedBy(userId));
      assert s in Filter(after, OwnedBy(userId));
      FirstMatchFinds(Filter(after, OwnedBy(userId)), verify, Some(raw), s);
  }

  /**
   * The authentication service of one request: its client context, the two
   * tables, the refresh-hash and password checks and the settings.
   */
  class AuthService {
    const client: ClientInfo
    const users: UserService
    const sessions: SessionService
    /** `verify_refresh_token(raw, hashed)`. */
    const verifyRefresh: (string, string) -> bool
    /** `PasswordManager.verify(plain, hashed)`. */
    const verifyPassword: (string, string) -> bool
    const settings: AppSettings

    constructor (client: ClientInfo, users: UserService, sessions: SessionService,
                 verifyRefresh: (string, string) -> bool, verifyPassword: (string, string) -> bool,
                 settings: AppSettings)
      ensures this.client == client && this.users == users && this.sessions == sessions
      ensures this.verifyRefresh == verifyRefresh && this.verifyPassword == verifyPassword
      ensures this.settings == settings
    {
      this.client := client;
      this.users := users;
      this.sessions := sessions;
      this.verifyRefresh := verifyRefresh;
      this.verifyPassword := verifyPassword;
      this.settings := settings;
    }

    /** The access-token claims issued for `userId` with role `role` at `now`. */
    function Claims(userId: nat, role: Roles.Role, now: int): (p: TokenPayload)
      ensures ParseNat(p.sub) == Some(userId) && p.role == role
      ensures p.exp - now == settings.accessTokenExpireMinutes * 60
    {
      ParseNatToString(userId);
      TokenPayload(NatToString(userId), now + settings.AccessTtl(), role)
    }

    /**
     * `login(data)`. `raw` and `hash` are the freshly generated refresh
     * token and its stored hash.
     */
    method Login(email: string, password: string, now: int, raw: string, hash: string)
      returns (r: Result<(User, TokenSchema), AppError>)
      requires sessions.Valid()
      requires verifyRefresh(raw, hash)
      modifies sessions
      ensures sessions.Valid()
      ensures FindByEmail(users.rows, email).None? ==>
                r == Failure(Raise(UserNotExists, None)) && sessions.rows == old(sessions.rows)
      ensures FindByEmail(users.rows, email).Some? && !verifyPassword(password, FindByEmail(users.rows, email).value.password) ==>
                r == Failure(Raise(UserInvalidCredentials, None)) && sessions.rows == old(sessions.rows)
      ensures var found := FindByEmail(users.rows, email);
              found.Some? && verifyPassword(password, found.value.password) ==>
                && r == Success((found.value, TokenSchema(Claims(found.value.id, found.value.role, now), raw)))
                && sessions.rows == LoginTable(old(sessions.rows), old(sessions.nextId), found.value.id, client, verifyRefresh,
                                               hash, settings.RefreshExpiry(now), now)
    {
      var userModel := FindByEmail(users.rows, email);
      if userModel.None? {
        return Failure(Raise(UserNotExists, None));
      }
      var user := userModel.value;
      if !verifyPassword(password, user.password) {
        return Failure(Raise(UserInvalidCredentials, None));
      }

      var payload := Claims(user.id, user.role, now);
      var refreshTokenExpiresAt := settings.RefreshExpiry(now);
      var renewal := Renewal(client, hash, refreshTokenExpiresAt);
      ghost var rows0 := sessions.rows;
      ghost var nextId0 := sessions.nextId;
      ghost var target := RotationTarget(rows0, user.id, verifyRefresh, client.refreshToken);

      var flagUpdated := false;
      if Truthy(client.refreshToken) {
        var userSessions := sessions.List(user.id);
        var i := 0;
        while i < |userSessions|
          invariant 0 <= i <= |userSessions|
          invariant !flagUpdated && sessions.rows == rows0
          invariant forall j :: 0 <= j < i ==> !VerifyRefreshToken(verifyRefresh, client.refreshToken, userSessions[j].refreshToken)
        {
          if VerifyRefreshToken(verifyRefresh, client.refreshToken, userSessions[i].refreshToken) {
            ScanFindsFirst(userSessions, verifyRefresh, client.refreshToken, i);
            sessions.Update(userSessions[i].id, renewal);
            flagUpdated := true;
            break;
          }
          i := i + 1;
        }
      }

      if !flagUpdated {
        assert target.None?;
        var session := sessions.Create(
          SessionCreate(hash, refreshTokenExpiresAt, client.userAgent, client.fingerprint, client.ip, user.id), now);
        assert session == NewSession(old(sessions.nextId), user.id, client, hash, refreshTokenExpiresAt, now);
        sessions.EnforceSessionLimit(user.id, now);
      }
      LoginTableCases(rows0, nextId0, user.id, client, verifyRefresh, hash, refreshTokenExpiresAt, now);
      return Success((user, TokenSchema(payload, raw)));
    }

    /**
     * `refresh_session(user_id)`. The id comes from the request body and is
     * any integer; a negative one owns no session. The user table must hold
     * the owner of every session, which the foreign key with cascading delete
     * guarantees.
     */
    method RefreshSession(userId: int, now: int, raw: string, hash: string) returns (r: Result<TokenSchema, AppError>)
      requires sessions.Valid()
      requires forall s :: s in sessions.rows ==> FindById(users.rows, s.userId).Some?
      requires verifyRefresh(raw, hash)
      modifies sessions
      ensures sessions.Valid()
      ensures client.refreshToken.None? || userId < 0 ==>
                r == Failure(Raise(UserInvalidCredentials, None)) && sessions.rows == old(sessions.rows)
      ensures var list := old(sessions.List(userId));
              var m := FirstMatch(list, verifyRefresh, client.refreshToken);
              && (m.None? ==> r == Failure(Raise(UserInvalidCredentials, None)) && sessions.rows == old(sessions.rows))
              && (m.Some? && now >= list[m.value].expiresAt ==>
                    && r == Failure(Raise(JwtExpired, None))
                    && sessions.rows == Filter(old(sessions.rows), Not(IdIn({list[m.value].id}))))
              && (m.Some? && now < list[m.value].expiresAt ==>
                    && userId >= 0
                    && FindById(users.rows, userId as nat).Some?
                    && r == Success(TokenSchema(Claims(userId as nat, FindById(users.rows, userId as nat).value.role, now), raw))
                    && sessions.rows == Rotated(old(sessions.rows), list[m.value].id, Renewal(client, hash, settings.RefreshExpiry(now)))
                    && FirstMatch(sessions.List(userId), verifyRefresh, Some(raw)).Some?)
    {
      if client.refreshToken.None? {
        return Failure(Raise(UserInvalidCredentials, None));
      }
      var list := sessions.List(userId);
      var sessionSchema: Option<Session> := None;
      var i := 0;
      while i < |list|
        invariant 0 <= i <= |list|
        invariant sessionSchema.None?
        invariant forall j :: 0 <= j < i ==> !VerifyRefreshToken(verifyRefresh, client.refreshToken, list[j].refreshToken)
      {
        if VerifyRefreshToken(verifyRefresh, client.refreshToken, list[i].refreshToken) {
          ScanFindsFirst(list, verifyRefresh, client.refreshToken, i);
          sessionSchema := Some(list[i]);
          break;
        }
        i := i + 1;
      }

      if sessionSchema.None? {
        return Failure(Raise(UserInvalidCredentials, None));
      }
      var session := sessionSchema.value;

      if now >= session.expiresAt {
        sessions.Delete(session.id);
        return Failure(Raise(JwtExpired, None));
      }

      ListRowInTable(sessions.rows, userId, i);
      var owner := FindById(users.rows, session.userId);
      var payload := Claims(session.userId, owner.value.role, now);
      var renewal := Renewal(client, hash, settings.RefreshExpiry(now));
      RotationStored(sessions.rows, userId, i, renewal, verifyRefresh, raw);
      sessions.Update(session.id, renewal);
      return Success(TokenSchema(payload, raw));
    }

    /** `revoke_session(user_id)`: delete the first of the user's sessions the token verifies. */
    method RevokeSession(userId: nat) returns (r: Result<(), AppError>)
      requires sessions.Valid()
      modifies sessions
      ensures sessions.Valid()
      ensures var list := old(sessions.List(userId));
              var m := FirstMatch(list, verifyRefresh, client.refreshToken);
              && (m.None? ==> r == Failure(Raise(UserInvalidCredentials, None)) && sessions.rows == old(sessions.rows))
              && (m.Some? ==> r == Success(()) && sessions.rows == Filter(old(sessions.rows), Not(IdIn({list[m.value].id}))))
    {
      var list := sessions.List(userId);
      var i := 0;
      while i < |list|
        invariant 0 <= i <= |list|
        invariant sessions.rows == old(sessions.rows)
        invariant forall j :: 0 <= j < i ==> !VerifyRefreshToken(verifyRefresh, client.refreshToken, list[j].refreshToken)
      {
        if VerifyRefreshToken(verifyRefresh, client.refreshToken, list[i].refreshToken) {
          ScanFindsFirst(list, verifyRefresh, client.refreshToken, i);
          sessions.Delete(list[i].id);
          return Success(());
        }
        i := i + 1;
      }
      return Failure(Raise(UserInvalidCredentials, None));
    }

    /** `revoke_all_sessions(id_user)`: delete every session of the user; never fails. */
    method RevokeAllSessions(idUser: nat)
      requires sessions.Valid()
      modifies sessions
      ensures sessions.Valid()
      ensures sessions.rows == WithoutUser(old(sessions.rows), idUser)
      ensures sessions.List(idUser) == []
    {
      sessions.DeleteWhere(OwnedBy(idUser));
      assert sessions.rows == WithoutUser(old(sessions.rows), idUser);
      FilterDropsAll(sessions.rows, OwnedBy(idUser));
    }
  }
}
