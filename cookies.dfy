/**
 * Cookie policy and request gating: the two authentication cookies issued
 * after login and refresh, the client context read from a request, and the
 * access checks run ahead of protected operations.
 */
module Cookies {
  import opened Wrappers
  import opened Settings
  import opened Roles
  import opened Schemas
  import opened Errors
  import opened Users

  // ---------------------------------------------------------------------------
  // Issuing cookies

  /** The `samesite` attribute: `'lax'` or `'none'`. */
  datatype SameSite = Lax | NoneSite

  datatype Cookie = Cookie(
    key: string,
    value: string,
    maxAge: int,
    secure: bool,
    httpOnly: bool,
    sameSite: SameSite)

  /** `MODE in ['PROD', 'STAGE']`: the deployments served over HTTPS. */
  predicate SecureMode(mode: string) {
    mode == "PROD" || mode == "STAGE"
  }

  /**
   * `provide_set_auth_cookies`: the access cookie, then the refresh cookie.
   * Deletion cookies carry a zero max-age; otherwise each lives as long as
   * its token.
   */
  function AuthCookies(settings: AppSettings, accessToken: string, refreshToken: string, isDelete: bool): (cs: seq<Cookie>)
    ensures |cs| == 2
    ensures cs[0].key == AuthAccessTokenKey && cs[0].value == accessToken
    ensures cs[1].key == AuthRefreshTokenKey && cs[1].value == refreshToken
    ensures forall i :: 0 <= i < |cs| ==> cs[i].httpOnly
    ensures forall i :: 0 <= i < |cs| ==> (cs[i].secure <==> SecureMode(settings.mode))
    ensures forall i :: 0 <= i < |cs| ==> (cs[i].sameSite == NoneSite <==> SecureMode(settings.mode))
    ensures forall i :: 0 <= i < |cs| ==> (cs[i].sameSite == Lax <==> !SecureMode(settings.mode))
    ensures isDelete ==> cs[0].maxAge == 0 && cs[1].maxAge == 0
    ensures !isDelete ==> cs[0].maxAge == settings.accessTokenExpireMinutes * 60
    ensures !isDelete ==> cs[1].maxAge == settings.refreshTokenExpireDays * 86400
  {
    var isSecure := SecureMode(settings.mode);
    var sameSite := if SecureMode(settings.mode) then NoneSite else Lax;
    var maxAgeAccess := if !isDelete then settings.AccessTtl() else 0;
    var maxAgeRefresh := if !isDelete then settings.RefreshTtl() else 0;
    [ Cookie(AuthAccessTokenKey, accessToken, maxAgeAccess, isSecure, true, sameSite),
      Cookie(AuthRefreshTokenKey, refreshToken, maxAgeRefresh, isSecure, true, sameSite) ]
  }

  /**
   * The cookie flags and the access groups read the mode separately: only in
   * "STAGE" are the cookies secure while the developer role still belongs to
   * the access groups.
   */
  lemma StageSecureWithDeveloper(settings: AppSettings, accessToken: string, refreshToken: string, isDelete: bool)
    ensures (AuthCookies(settings, accessToken, refreshToken, isDelete)[0].secure
             && Developer in Groups(IsProdMode(settings.mode)).common)
            <==> settings.mode == "STAGE"
  {
  }

  /**
   * What a client does with `Set-Cookie` (section 5.3 of RFC 6265): a
   * positive max-age stores the value, a zero or negative one expires the
   * cookie at once. Used only to state what the issued cookies achieve.
   */
  function StoreCookies(jar: map<string, string>, cs: seq<Cookie>): (r: map<string, string>)
    ensures forall k :: k in r ==> k in jar || exists i :: 0 <= i < |cs| && cs[i].key == k
    decreases |cs|
  {
    if |cs| == 0 then jar
    else
      var c := cs[0];
      var jar' := if c.maxAge > 0 then jar[c.key := c.value] else jar - {c.key};
      StoreCookies(jar', cs[1..])
  }

  // ---------------------------------------------------------------------------
  // Reading the client context

  /** The three request headers the service reads. */
  datatype Header = XForwardedFor | UserAgent | DeviceFingerprint

  datatype Request = Request(headers: map<Header, string>, cookies: map<string, string>)

  /** `mapping.get(key)`. */
  function Get<K, V>(m: map<K, V>, key: K): (r: Option<V>)
    ensures r.Some? <==> key in m
    ensures r.Some? ==> r.value == m[key]
  {
    if key in m then Some(m[key]) else None
  }

  /** Python's `value or ''` on an optional string. */
  function OrEmpty(s: Option<string>): (r: string)
    ensures r == s.GetOr("")
  {
    if Truthy(s) then s.value else ""
  }

  /**
   * `extract_client_info`: a missing forwarded-for or fingerprint header
   * reads as ""; the user agent and both token cookies are passed through
   * and may be missing.
   */
  function ExtractClientInfo(request: Request): (info: ClientInfo)
    ensures info.ip == (if XForwardedFor in request.headers then request.headers[XForwardedFor] else "")
    ensures info.fingerprint == (if DeviceFingerprint in request.headers then request.headers[DeviceFingerprint] else "")
    ensures info.userAgent.Some? <==> UserAgent in request.headers
    ensures info.userAgent.Some? ==> info.userAgent.value == request.headers[UserAgent]
    ensures info.accessToken.Some? <==> AuthAccessTokenKey in request.cookies
    ensures info.accessToken.Some? ==> info.accessToken.value == request.cookies[AuthAccessTokenKey]
    ensures info.refreshToken.Some? <==> AuthRefreshTokenKey in request.cookies
    ensures info.refreshToken.Some? ==> info.refreshToken.value == request.cookies[AuthRefreshTokenKey]
  {
    ClientInfo(
      OrEmpty(Get(request.headers, XForwardedFor)),
      Get(request.headers, UserAgent),
      OrEmpty(Get(request.headers, DeviceFingerprint)),
      Get(request.cookies, AuthAccessTokenKey),
      Get(request.cookies, AuthRefreshTokenKey))
  }

  lemma StoreTwo(jar: map<string, string>, a: Cookie, b: Cookie)
    ensures StoreCookies(jar, [a, b]) ==
              var j := if a.maxAge > 0 then jar[a.key := a.value] else jar - {a.key};
              if b.maxAge > 0 then j[b.key := b.value] else j - {b.key}
  {
    var j := if a.maxAge > 0 then jar[a.key := a.value] else jar - {a.key};
    var j' := if b.maxAge > 0 then j[b.key := b.value] else j - {b.key};
    assert [a, b][0] == a && [a, b][1..] == [b];
    assert StoreCookies(jar, [a, b]) == StoreCookies(j, [b]);
    assert [b][0] == b && [b][1..] == [];
    assert StoreCookies(j, [b]) == StoreCookies(j', []);
  }

  /**
   * The issued cookies come back: a client that stores them and sends them
   * with its next request presents exactly the two tokens it was given.
   */
  lemma IssuedCookiesReadBack(settings: AppSettings, jar: map<string, string>, headers: map<Header, string>,
                              accessToken: string, refreshToken: string)
    requires settings.accessTokenExpireMinutes > 0 && settings.refreshTokenExpireDays > 0
    ensures var info := ExtractClientInfo(Request(headers, StoreCookies(jar, AuthCookies(settings, accessToken, refreshToken, false))));
            info.accessToken == Some(accessToken) && info.refreshToken == Some(refreshToken)
  {
    var cs := AuthCookies(settings, accessToken, refreshToken, false);
    assert cs == [cs[0], cs[1]];
    StoreTwo(jar, cs[0], cs[1]);
  }

  /** Deletion cookies clear both tokens from the next request. */
  lemma DeletedCookiesReadBack(settings: AppSettings, jar: map<string, string>, headers: map<Header, string>,
                               accessToken: string, refreshToken: string)
    ensures var info := ExtractClientInfo(Request(headers, StoreCookies(jar, AuthCookies(settings, accessToken, refreshToken, true))));
            info.accessToken.None? && info.refreshToken.None?
  {
    var cs := AuthCookies(settings, accessToken, refreshToken, true);
    assert cs == [cs[0], cs[1]];
    StoreTwo(jar, cs[0], cs[1]);
  }

  // ---------------------------------------------------------------------------
  // Gating requests

  /**
   * What `get_authenticated_user` yields: no access cookie is `JWTAbsent`;
   * a token that does not decode, a subject that is not an integer and a
   * subject naming no user all surface as `JWTInvalid`.
   */
  function Authenticate(request: Request, users: seq<User>, decode: string -> Result<TokenPayload, AppError>): (r: Result<User, AppError>)
    ensures AuthAccessTokenKey !in request.cookies <==> r == Failure(Raise(JwtAbsent, None))
    ensures r.Failure? ==> r.error == Raise(JwtAbsent, None) || r.error == Raise(JwtInvalid, None)
    ensures r.Success? <==>
              && AuthAccessTokenKey in request.cookies
              && decode(request.cookies[AuthAccessTokenKey]).Success?
              && ParseNat(decode(request.cookies[AuthAccessTokenKey]).value.sub).Some?
              && FindById(users, ParseNat(decode(request.cookies[AuthAccessTokenKey]).value.sub).value).Some?
    ensures r.Success? ==>
              && r.value in users
              && ParseNat(decode(request.cookies[AuthAccessTokenKey]).value.sub) == Some(r.value.id)
  {
    var info := ExtractClientInfo(request);
    if info.accessToken.None? then Failure(Raise(JwtAbsent, None))
    else
      match decode(info.accessToken.value)
      case Failure(_) => Failure(Raise(JwtInvalid, None))
      case Success(payload) =>
        match ParseNat(payload.sub)
        case None => Failure(Raise(JwtInvalid, None))
        case Some(id) =>
          match FindById(users, id)
          case None => Failure(Raise(JwtInvalid, None))
          case Some(user) => Success(user)
  }

  /**
   * A token whose subject was written as `str(user.id)` authenticates that
   * user, as long as the user is still in the table.
   */
  lemma IssuedSubjectAuthenticates(request: Request, users: seq<User>, decode: string -> Result<TokenPayload, AppError>, u: User)
    requires UniqueUserIds(users) && u in users
    requires AuthAccessTokenKey in request.cookies
    requires decode(request.cookies[AuthAccessTokenKey]).Success?
    requires decode(request.cookies[AuthAccessTokenKey]).value.sub == NatToString(u.id)
    ensures Authenticate(request, users, decode) == Success(u)
  {
    ParseNatToString(u.id);
    var found := FindById(users, u.id);
    var j :| 0 <= j < |users| && users[j] == u;
    assert found.Some?;
    var k :| 0 <= k < |users| && users[k] == found.value;
  }

  /** `get_authenticated_user(request, user_service)`. */
  method GetAuthenticatedUser(request: Request, users: UserService, decode: string -> Result<TokenPayload, AppError>)
    returns (r: Result<User, AppError>)
    ensures r == Authenticate(request, users.rows, decode)
  {
    var clientInfo := ExtractClientInfo(request);
    if clientInfo.accessToken.None? {
      return Failure(Raise(JwtAbsent, None));
    }
    var decoded := decode(clientInfo.accessToken.value);
    if decoded.Failure? {
      return Failure(Raise(JwtInvalid, None));
    }
    var id := ParseNat(decoded.value.sub);
    if id.None? {
      return Failure(Raise(JwtInvalid, None));
    }
    var user := FindById(users.rows, id.value);
    if user.None? {
      return Failure(Raise(JwtInvalid, None));
    }
    return Success(user.value);
  }

  /**
   * The dependency `create_role_based_dependency(allowed_roles)` builds:
   * authentication errors pass through, and an authenticated user whose role
   * is not allowed is refused with `UserAccessDenied`.
   */
  method RoleGuard(request: Request, users: UserService, decode: string -> Result<TokenPayload, AppError>, allowedRoles: set<Role>)
    returns (r: Result<User, AppError>)
    ensures Authenticate(request, users.rows, decode).Failure? ==> r == Authenticate(request, users.rows, decode)
    ensures r.Success? <==> Authenticate(request, users.rows, decode).Success? && Authenticate(request, users.rows, decode).value.role in allowedRoles
    ensures r.Success? ==> r == Authenticate(request, users.rows, decode)
    ensures Authenticate(request, users.rows, decode).Success? && r.Failure? ==> r.error == Raise(UserAccessDenied, None)
  {
    var user := GetAuthenticatedUser(request, users, decode);
    if user.Failure? {
      return user;
    }
    if user.value.role !in allowedRoles {
      return Failure(Raise(UserAccessDenied, None));
    }
    return user;
  }
}
