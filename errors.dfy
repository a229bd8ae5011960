/**
 * The application's exception hierarchy. Each exception class declares (or
 * inherits) an HTTP status code and a default message; an instance carries the
 * message it was raised with.
 */
module Errors {
  import opened Wrappers

  /** One constructor per exception class. */
  datatype Kind =
    | AppException
    | JwtException
    | JwtAbsent
    | JwtCannotEncode
    | JwtCannotDecode
    | JwtExpired
    | JwtInvalid
    | UserException
    | UserAlreadyExistsByEmail
    | UserAlreadyExistsByUsername
    | UserNotExists
    | UserInvalidCredentials
    | UserAccessDenied

  /** Distance from the root `AppException` in the class hierarchy. */
  function Depth(k: Kind): nat {
    match k
    case AppException => 0
    case JwtException => 1
    case UserException => 1
    case _ => 2
  }

  /** The base class each exception class derives from. */
  function Parent(k: Kind): (p: Option<Kind>)
    ensures p.None? <==> k == AppException
    ensures p.Some? ==> Depth(p.value) < Depth(k)
  {
    match k
    case AppException => None
    case JwtException => Some(AppException)
    case UserException => Some(AppException)
    case JwtAbsent => Some(JwtException)
    case JwtCannotEncode => Some(JwtException)
    case JwtCannotDecode => Some(JwtException)
    case JwtExpired => Some(JwtException)
    case JwtInvalid => Some(JwtException)
    case _ => Some(UserException)
  }

  /** The `status_code` a class declares in its own body, if any. */
  function DeclaredStatus(k: Kind): Option<int> {
    match k
    case AppException => None
    case JwtException => Some(500)
    case JwtAbsent => Some(401)
    case JwtCannotEncode => None
    case JwtCannotDecode => None
    case JwtExpired => Some(401)
    case JwtInvalid => Some(401)
    case UserException => Some(400)
    case UserAlreadyExistsByEmail => Some(409)
    case UserAlreadyExistsByUsername => Some(409)
    case UserNotExists => Some(404)
    case UserInvalidCredentials => Some(404)
    case UserAccessDenied => Some(403)
  }

  /** The `message` a class declares in its own body, if any. */
  function DeclaredMessage(k: Kind): Option<string> {
    match k
    case AppException => None
    case JwtException => None
    case JwtAbsent => Some("Authorization token is missing")
    case JwtCannotEncode => Some("Failed to encode JWT token")
    case JwtCannotDecode => Some("Failed to decode JWT token")
    case JwtExpired => Some("Token has expired")
    case JwtInvalid => Some("Invalid token")
    case UserException => Some("Ошибка пользователя")
    case UserAlreadyExistsByEmail => Some("User with this email already exists")
    case UserAlreadyExistsByUsername => Some("User with this username already exists")
    case UserNotExists => Some("User not found")
    case UserInvalidCredentials => Some("Invalid credentials")
    case UserAccessDenied => Some("Insufficient permissions")
  }

  /**
   * Class-attribute lookup of `status_code`: the class's own declaration,
   * otherwise its base class's. The root declares none.
   */
  function StatusCode(k: Kind): (code: Option<int>)
    decreases Depth(k)
    ensures code.None? <==> k == AppException
    ensures k in {JwtAbsent, JwtExpired, JwtInvalid} ==> code == Some(401)
    ensures k in {JwtException, JwtCannotEncode, JwtCannotDecode} ==> code == Some(500)
    ensures k in {UserNotExists, UserInvalidCredentials} ==> code == Some(404)
    ensures k in {UserAlreadyExistsByEmail, UserAlreadyExistsByUsername} ==> code == Some(409)
    ensures k == UserAccessDenied ==> code == Some(403)
    ensures k == UserException ==> code == Some(400)
  {
    match DeclaredStatus(k)
    case Some(c) => Some(c)
    case None =>
      match Parent(k)
      case None => None
      case Some(p) => StatusCode(p)
  }

  /**
   * `getattr(self, 'message', "")` evaluated before the instance attribute is
   * set: the nearest class-level `message`, or "" when no class declares one.
   */
  function ClassMessage(k: Kind): (m: string)
    decreases Depth(k)
    ensures k in {AppException, JwtException} ==> m == ""
    ensures DeclaredMessage(k).Some? ==> m == DeclaredMessage(k).value
  {
    match DeclaredMessage(k)
    case Some(msg) => msg
    case None =>
      match Parent(k)
      case None => ""
      case Some(p) => ClassMessage(p)
  }

  /** Python truthiness of an optional string: present and non-empty. */
  predicate Truthy(s: Option<string>) {
    s.Some? && s.value != ""
  }

  /**
   * The message an exception instance ends up with. Below the root,
   * `message or <class default>` applies; the root stores what it is given,
   * "" by default.
   */
  function ExceptionMessage(k: Kind, given: Option<string>): (m: string)
    ensures k != AppException && Truthy(given) ==> m == given.value
    ensures k != AppException && !Truthy(given) ==> m == ClassMessage(k)
    ensures k == AppException ==> m == given.GetOr("")
  {
    if k == AppException then given.GetOr("")
    else if Truthy(given) then given.value
    else ClassMessage(k)
  }

  /** A raised exception: its class and the message it carries. */
  datatype AppError = AppError(kind: Kind, message: string)

  function Raise(k: Kind, given: Option<string>): AppError {
    AppError(k, ExceptionMessage(k, given))
  }

  /**
   * Below the root, raising with an empty message is the same as raising with
   * none: both carry the class default.
   */
  lemma EmptyMessageIsDefault(k: Kind)
    requires k != AppException
    ensures Raise(k, Some("")) == Raise(k, None)
    ensures Raise(k, None).message == ClassMessage(k)
  {
  }

  /** A non-empty message given at the raise site is the one carried, at every level. */
  lemma GivenMessageWins(k: Kind, msg: string)
    requires msg != ""
    ensures Raise(k, Some(msg)).message == msg
  {
  }

  /**
   * What the user-side raise sites of the service produce: the exceptions
   * raised without a message carry their class's literal text, and
   * registration's duplicate-email error carries the text it is raised with.
   */
  lemma UserErrorsRaised()
    ensures Raise(UserNotExists, None).message == "User not found" && StatusCode(UserNotExists) == Some(404)
    ensures Raise(UserInvalidCredentials, None).message == "Invalid credentials" && StatusCode(UserInvalidCredentials) == Some(404)
    ensures Raise(UserAccessDenied, None).message == "Insufficient permissions" && StatusCode(UserAccessDenied) == Some(403)
    ensures Raise(UserAlreadyExistsByEmail, Some("User already exists.")).message == "User already exists."
            && StatusCode(UserAlreadyExistsByEmail) == Some(409)
  {
  }

  /**
   * What the token-side raise sites produce, all raised without a message;
   * the two bases without a message of their own carry "".
   */
  lemma JwtErrorsRaised()
    ensures Raise(JwtAbsent, None).message == "Authorization token is missing" && StatusCode(JwtAbsent) == Some(401)
    ensures Raise(JwtExpired, None).message == "Token has expired" && StatusCode(JwtExpired) == Some(401)
    ensures Raise(JwtInvalid, None).message == "Invalid token" && StatusCode(JwtInvalid) == Some(401)
    ensures Raise(JwtCannotEncode, None).message == "Failed to encode JWT token" && StatusCode(JwtCannotEncode) == Some(500)
    ensures Raise(JwtCannotDecode, None).message == "Failed to decode JWT token" && StatusCode(JwtCannotDecode) == Some(500)
    ensures Raise(JwtException, None).message == "" && Raise(AppException, None).message == ""
  {
  }
}
