# Refresh-session lifecycle of the authorization service

A Dafny model of the authentication core of the authorization service. It covers:

- **The refresh-session table.** This table is updated by login, token refresh, revocation of one session and revocation of all of a user's sessions.
- **The per-user cap.** A login that creates a session enforces the cap afterwards: the user keeps at most five non-expired sessions, and the oldest go first, ties going by the order in which the store lists them. A login that rotates an existing session does not enforce the cap. Rotating a session that had already expired can therefore leave six.
- **The sweep of expired sessions.**
- **User registration.**
- **Request gating.** The authentication cookies, reading the client context, access-token authentication and the role check.
- **The role groups.**
- **The exception table.** Each exception's status code and message.

Modules follow the source files:

| module | models |
|---|---|
| `Auth` | `app/application/services/auth_service.py` |
| `Sessions` | `app/application/services/session_service.py` and the session table |
| `Users` | `app/application/services/user_service.py` |
| `Cookies` | `app/infrastructure/di/providers/cookie_dependencies.py` |
| `Roles` | `app/lib/security/role.py` |
| `Errors` | `app/lib/errors/exceptions.py` |
| `LoginExamples` | a concrete login, per `app/application/services/auth_service.py`, that leaves a user above the cap |
| `Settings` | `app/config/constants.py` and the settings the core reads |
| `Schemas` | the client-context and token-payload records, `str(id)` / `int(sub)`, and the refresh-hash check of `app/lib/security/jwt.py` |
| `Tables` | the order-preserving `Filter` behind every `WHERE` clause |
| `Wrappers` | `Option` and `Result` |

Modelling choices:

- **Stores.** The session and user stores are classes holding a `seq` of rows. The model takes insertion order as the order every query returns, because "the first session that verifies" and the tie order of the eviction sort depend on it (see "## Left out"). Each service operation is a method with the source's loop, flag and early exit. Its postcondition ties the new table to a specification function: `LoginTable`, `Rotated`, `Filter`, `LimitEnforced` or `Unexpired`. The properties of those functions are proved as lemmas.
- **Time** is an integer clock `now` in seconds. An access token lives `minutes * 60` seconds and a refresh session `days * 86400` seconds.
- **Refresh-hash verification** (`verify_refresh_token`) is a function-valued parameter `verify(raw, hashed)`. A missing raw token never verifies.
- **Fresh refresh tokens.** The pair `(raw, hash)` a login or refresh generates is passed in, with `verify(raw, hash)` required.
- **Password checks.** Password verification and password hashing are function-valued parameters.
- **Access tokens** are represented by their claims (`sub`, `exp`, `role`), not by a signed string.
- **Decoding an access token** is a parameter returning a `Result`.

## Model

| member | source | states |
|---|---|---|
| Auth.AuthService.Login | app/application/services/auth_service.py:67-143 | unknown email gives `UserNotExists`, wrong password `UserInvalidCredentials`, both with the session table unchanged; on success returns the user, claims for that user and the fresh raw token, and the table becomes `LoginTable(...)` with expiry `now + days*86400` |
| Auth.LoginRotatesOnlyMatch | app/application/services/auth_service.py:108-128 | when a presented token verifies one of the user's sessions, login changes exactly that row (same id and owner, new hash, expiry and client columns) and no other row; nothing is created or evicted |
| Auth.LoginCreateKeepsCap | app/application/services/auth_service.py:130-141 | when no session is rotated, login creates one and then caps: the user has at most 5 active sessions afterwards, and no other user's session and no expired session is removed |
| Auth.LoginStoresToken | app/application/services/auth_service.py:94-143 | after a login the returned raw token is found by the next scan of the user's sessions (always after a rotation; after a creation if no row is newer) |
| Auth.RotationTarget | app/application/services/auth_service.py:108-128 | login rotates a session iff the presented token is non-empty and verifies some session of the user; the chosen index lies in the user's list |
| Auth.UserScanFinds | app/application/services/auth_service.py:110-116 | the scan of the user's list finds a match iff some session of that user verifies the token |
| Auth.RotationStored | app/application/services/auth_service.py:196-206 | after rotating the matched row with a new hash, the raw token that verifies that hash is found by the next scan of the user's list |
| Auth.RotatingExpiredAddsActive | app/application/services/auth_service.py:108-143 | a rotating login does not enforce the cap: rotating an already expired session of the user to a future expiry adds exactly one to the user's active count |
| LoginExamples.OverCapLogin | app/application/services/auth_service.py:108-143 | for any table of the stated shape (five active sessions and one expired one of user 1, the expired one holding the presented token), the login leaves 6 active sessions |
| LoginExamples.RotatingLoginExceedsCap | app/application/services/auth_service.py:108-143 | a concrete such table: five active sessions and one expired at time 5 whose token is presented at time 10; after the login the user has 6 active sessions |
| Auth.AuthService.Claims | app/application/services/auth_service.py:94-99 | the access-token subject reads back as the user id, the role is the user's role, and `exp` is `minutes*60` seconds after `now` |
| Auth.AuthService.RefreshSession | app/application/services/auth_service.py:145-206 | a `None` token, a negative user id (it owns no session), or a token that verifies none of the user's sessions gives `UserInvalidCredentials` with the table unchanged; a first match with `now >= expires_at` is deleted (only it) and gives `JWTExpired`; otherwise only that row is rotated, the claims carry the owner's id and role, and the returned raw token is found by the next scan |
| Auth.AuthService.RevokeSession | app/application/services/auth_service.py:208-228 | deletes exactly the first of the user's sessions that verifies the presented token, else fails with `UserInvalidCredentials` and changes nothing |
| Auth.AuthService.RevokeAllSessions | app/application/services/auth_service.py:230-235 | the table becomes the old table without the user's rows, and the user's list is empty |
| Auth.WithoutUser | app/application/services/auth_service.py:235 | a row survives revoke-all iff it belongs to another user |
| Auth.WithoutUserIdempotent | app/application/services/auth_service.py:235 | revoking all of a user's sessions twice equals doing it once |
| Auth.WithoutUserKeepsOthers | app/application/services/auth_service.py:235 | revoking all of one user's sessions leaves every other user's session list unchanged, order included |
| Sessions.FirstMatch | app/application/services/auth_service.py:113-128 | the index found verifies the token and no earlier session does; no index iff no session verifies |
| Sessions.Rotated | app/application/services/auth_service.py:117-126 | an update by id keeps the length, every id and owner, and every row with another id |
| Sessions.RotatedAt | app/application/services/auth_service.py:117-126 | with distinct ids, updating the row at position i changes that position only |
| Sessions.DeleteByIdRemovesRow | app/application/services/auth_service.py:178 | with distinct ids, deleting by the id of row i removes that row, keeps every other row, and shortens the table by exactly one |
| Sessions.SessionService.List | app/application/services/auth_service.py:110-112 | the user's list holds exactly the table rows owned by that user |
| Sessions.SessionService.Create | app/application/services/auth_service.py:131-140 | appends one row with a fresh id, the given columns and `created_at = now`; ids stay distinct |
| Sessions.SessionService.Update | app/application/services/auth_service.py:117-126 | the table becomes `Rotated(old, id, data)`; ids stay distinct |
| Sessions.SessionService.Delete | app/application/services/auth_service.py:178 | the table becomes the old table without the row carrying that id |
| Sessions.SessionService.DeleteWhere | app/application/services/auth_service.py:235 | the table keeps, in order, exactly the rows not matching the predicate |
| Sessions.SessionService.EnforceSessionLimit | app/application/services/session_service.py:24-47 | the table becomes `LimitEnforced(old, user, now)`: at most 5 active sessions of the user remain, and no other user's session and no expired session is removed |
| Sessions.LimitEnforced | app/application/services/session_service.py:38-42 | at or below the cap (including exactly 5) nothing is deleted |
| Sessions.Evicted | app/application/services/session_service.py:33-46 | the ids handed to `delete_many` are ids of the user's active sessions |
| Sessions.LimitEnforcedCount | app/application/services/session_service.py:38-47 | above the cap exactly `total - 5` rows are deleted and exactly 5 active sessions of the user remain; otherwise the active count is unchanged |
| Sessions.LimitEnforcedKeepsInactive | app/application/services/session_service.py:33-36 | other users' sessions and the user's sessions with `expires_at <= now` always survive |
| Sessions.LimitEnforcedEvictsOldest | app/application/services/session_service.py:43-47 | every deleted session is at least as old (`created_at`) as every active session of the user that remains |
| Sessions.EvictedRowIsOldest | app/application/services/session_service.py:43-47 | pointwise form: a deleted row is not newer than a kept active row |
| Sessions.FirstOldestTie | app/application/services/session_service.py:45 | a session created at the same time as the first pick comes after it in the list |
| Sessions.FirstOldestIsOldest | app/application/services/session_service.py:45 | the session picked first has the smallest `created_at`, and every session before it in list order is strictly newer (the stable sort's tie-break) |
| Sessions.Oldest | app/application/services/session_service.py:45 | `sorted(...)[:k]` has exactly k sessions |
| Sessions.OldestMembers | app/application/services/session_service.py:45 | every one of the k oldest is a session of the list |
| Sessions.OldestIdsWithin | app/application/services/session_service.py:45-46 | the ids handed over for the k oldest are ids of the list |
| Sessions.OldestIdsCount | app/application/services/session_service.py:43-47 | in a list with distinct ids, the k oldest carry exactly k distinct ids, so `delete_many` receives k ids |
| Sessions.OldestTiesByPosition | app/application/services/session_service.py:45 | in a list with distinct ids, a selected session and an unselected one with equal `created_at`: the selected one is earlier in the list (the stable sort's tie order, at every pick) |
| Sessions.EvictedTiesComeFirst | app/application/services/session_service.py:43-47 | among the user's active sessions, an evicted one and a kept one created at the same time: the evicted one comes first in the user's list |
| Sessions.OldestBeforeKept | app/application/services/session_service.py:45 | each of the k oldest is no newer than any session of the list whose id was not selected |
| Sessions.NewestNotEvicted | app/application/services/session_service.py:45 | a last, newest session is never among the k oldest when k is less than the list length |
| Sessions.NewSessionSurvivesLimit | app/application/services/auth_service.py:130-141 | a just-created, unexpired session no older than any other row survives the cap enforcement that follows it |
| Sessions.RemoveIdsCount | app/application/services/session_service.py:47 | deleting a set of existing ids from a table with distinct ids removes exactly that many rows |
| Sessions.SessionService.DeleteExpiredSessions | app/application/services/session_service.py:49-54 | the table becomes `Unexpired(old, now)`: exactly the rows with `expires_at < now` go, rows with `expires_at == now` stay |
| Sessions.Unexpired | app/application/services/session_service.py:54 | a row survives the sweep iff `expires_at >= now` |
| Sessions.UnexpiredIdempotent | app/application/services/session_service.py:54 | sweeping twice at the same `now` equals sweeping once |
| Sessions.UnexpiredKeepsLive | app/application/services/session_service.py:54 | a table with no row expired before `now` is left unchanged |
| Users.UserService.RegisterUser | app/application/services/user_service.py:25-49 | a taken email gives `UserAlreadyExistsByEmail` with message "User already exists." and changes nothing; otherwise the request's password is overwritten by its hash, exactly one user is appended, existing users are unchanged, and exactly one user carries the email |
| Users.FindByEmail | app/application/services/user_service.py:39 | the lookup returns a user with that email from the table, and none iff no user has it |
| Users.AppendKeepsKeys | app/application/services/user_service.py:47 | appending a user with the next id and an unused email keeps ids and emails distinct and every id below the next one |
| Users.RegisteredEmailFoundOnce | app/application/services/user_service.py:39-47 | appending a user whose email is free makes exactly one row carry that email, and the lookup finds the new user |
| Users.FindById | app/infrastructure/di/providers/cookie_dependencies.py:131 | the lookup returns the user with that id from the table, and none iff no user has it |
| Cookies.AuthCookies | app/infrastructure/di/providers/cookie_dependencies.py:38-80 | two cookies, access key then refresh key, with the given values, both `httponly`; `secure` and samesite `none` iff the mode is PROD or STAGE, samesite `lax` otherwise; max-age is `minutes*60` and `days*86400`, or 0 for both when deleting |
| Cookies.IssuedCookiesReadBack | app/infrastructure/di/providers/cookie_dependencies.py:58-80 | with positive TTLs, a client that stores the issued cookies presents exactly the two tokens on its next request |
| Cookies.DeletedCookiesReadBack | app/infrastructure/di/providers/cookie_dependencies.py:58-80 | deletion cookies clear both tokens from the next request |
| Cookies.OrEmpty | app/infrastructure/di/providers/cookie_dependencies.py:95-97 | a missing header reads as "" and a present one as its value |
| Cookies.ExtractClientInfo | app/infrastructure/di/providers/cookie_dependencies.py:83-101 | ip and fingerprint are the header values or "" when missing; user agent and both token cookies are passed through, missing exactly when absent |
| Cookies.Authenticate | app/infrastructure/di/providers/cookie_dependencies.py:104-134 | no access cookie iff `JWTAbsent`; every other failure is `JWTInvalid`; success iff the token decodes, its subject is a number, and a user has that id; the user returned is from the table with that id |
| Cookies.IssuedSubjectAuthenticates | app/infrastructure/di/providers/cookie_dependencies.py:126-132 | a token whose subject was written as `str(user.id)` authenticates that user while the user is in the table |
| Cookies.GetAuthenticatedUser | app/infrastructure/di/providers/cookie_dependencies.py:104-134 | the step-by-step dependency returns exactly `Authenticate` |
| Cookies.RoleGuard | app/infrastructure/di/providers/cookie_dependencies.py:137-157 | authentication failures pass through; an authenticated user is returned iff its role is allowed, else `UserAccessDenied` |
| Cookies.StageSecureWithDeveloper | app/infrastructure/di/providers/cookie_dependencies.py:54-55 | the cookies are secure and DEVELOPER is in the access groups at once iff the mode is STAGE |
| Roles.Groups | app/lib/security/role.py:22-32 | DEVELOPER is in COMMON, STAFF, ADMIN and PRIVATE iff the mode is not PROD; COMMON holds USER but not MANAGER or ADMIN; COMMON is a subset of STAFF, which holds MANAGER and ADMIN; ADMIN equals STAFF; PRIVATE is empty in PROD, else {DEVELOPER}; GUEST is in no group |
| Errors.Parent | app/lib/errors/exceptions.py:18-141 | only `AppException` has no base class, and every base class is shallower than its subclass |
| Errors.StatusCode | app/lib/errors/exceptions.py:30-141 | JWTAbsent, JWTExpired and JWTInvalid are 401; JWTException, JWTCannotEncode and JWTCannotDecode are 500; UserNotExists and UserInvalidCredentials are 404; both AlreadyExists classes are 409; UserAccessDenied is 403; UserException is 400; only AppException has none |
| Errors.ClassMessage | app/lib/errors/exceptions.py:35-141 | the class default is the nearest declared `message`, "" for AppException and JWTException |
| Errors.EmptyMessageIsDefault | app/lib/errors/exceptions.py:37-39 | below the root, raising with "" is the same as raising with no message, and both carry the class default |
| Errors.GivenMessageWins | app/lib/errors/exceptions.py:23-39 | a non-empty message passed at the raise site is the message carried, for every class including the root |
| Errors.UserErrorsRaised | app/lib/errors/exceptions.py:86-141 | the user-side raise sites carry their literal text and status: "User not found" 404, "Invalid credentials" 404, "Insufficient permissions" 403; the duplicate-email error carries "User already exists." with 409 |
| Errors.JwtErrorsRaised | app/lib/errors/exceptions.py:30-82 | the token-side exceptions raised bare carry their literal text and status: "Authorization token is missing", "Token has expired" and "Invalid token" with 401, the encode/decode texts with 500; JWTException and AppException raised bare carry "" |
| Schemas.ParseNat | app/infrastructure/di/providers/cookie_dependencies.py:131 | `int(sub)` succeeds iff the subject is a non-empty string of decimal digits |
| Schemas.ParseNatToString | app/infrastructure/di/providers/cookie_dependencies.py:131 | `int(str(id)) == id` |

## Left out

- Row order. The source's session queries have no `ORDER BY` (app/application/services/auth_service.py:110-112, 162-165, 219-221 and app/application/services/session_service.py:33-36), so the database may return rows in any order, and an update may move a row. The model fixes one order: insertion order, with an update keeping a row's place. What depends on this choice is proved for that order only: which verifying session is "first" (`Sessions.FirstMatch`, `Auth.LoginStoresToken`), and the `created_at` tie order of the eviction sort (`Sessions.OldestTiesByPosition`, `Sessions.EvictedTiesComeFirst`, `Sessions.FirstOldestTie`, and the equal-time case of `Sessions.NewSessionSurvivesLimit`).
- Time granularity. The clock counts whole seconds, so equal `created_at` values are common in the model. The source's microsecond timestamps almost never tie.
- I/O and persistence. The database, async I/O, logging, the HTTP controllers, cron and the cleanup job are not modelled. Each operation runs atomically on in-memory tables, so the races between concurrent requests (check-then-insert on the cap, double rotation) are not captured.
- JWT signing and decoding. Signing is not modelled: an access token is its claims. Decoding is a parameter. The `JWTCannotEncode`/`JWTCannotDecode` failures of the JWT wrapper are therefore not produced by the model.
- Refresh-token generation. A generation failure (`AppException` from the token generator) is not modelled; the fresh pair is an input.
- Auth.AuthService.Login: `PasswordManager.verify` raising on a malformed stored hash is not modelled. Password verification is a total boolean parameter.
- Users.UserService.RegisterUser: password hashing is a deterministic function parameter. The salt and the random hash are not modelled. The primary key is a counter; `updated_at` and the other database defaults are not modelled.
- Auth.AuthService.RefreshSession: requires that the owner of every session exists in the user table. The database's foreign key with cascading delete guarantees this. The model does not derive it.
- Auth.AuthService.Login and Auth.AuthService.RefreshSession: the returned user and session are the table records. The projection to the response schemas is not modelled.
- Schemas.ParseNat: accepts only plain decimal digits. Python's `int()` also takes signs, surrounding spaces and underscores; such subjects never arise from `str(id)`.
- Sessions.SessionService.Create: the session table's `user_agent` column is NOT NULL and `ip` is VARCHAR(15) (app/infrastructure/db/migrations/versions/2025-04-07_init_b33b7f1955fc.py:72-73). The model stores any ip and a missing user agent, where the database would reject the insert or update.
- Cookies.ExtractClientInfo: the three header names are an enumeration. The literal header names live in an external package that is not part of this model. Case-insensitive header matching is not modelled.
- Cookies.Authenticate: the `details` text attached to `JWTInvalid` and the Litestar cookie attributes other than key, value, max-age, secure, httponly and samesite are not modelled.
- Roles.Groups: the role groups are sets. The source builds tuples via `set`, whose order is unspecified.
- Real time and floating point. `datetime.now(UTC)` is the parameter `now`, in whole seconds, and time zones are not modelled.
