/**
 * The request-scoped client context, the access-token payload and the token
 * pair handed back to the controllers, plus the decimal conversions that link
 * a user id to the token subject (`str(user.id)` when issuing, `int(sub)`
 * when authenticating).
 */
module Schemas {
  import opened Wrappers
  import opened Roles

  /**
   * What a request says about its client. Forwarded-for and fingerprint are
   * always strings; the user agent and both token cookies may be missing.
   */
  datatype ClientInfo = ClientInfo(
    ip: string,
    userAgent: Option<string>,
    fingerprint: string,
    accessToken: Option<string>,
    refreshToken: Option<string>)

  /** Claims signed into an access token. */
  datatype TokenPayload = TokenPayload(sub: string, exp: int, role: Role)

  /**
   * The token pair returned by login and refresh. Signing is not modelled, so
   * the access token is represented by the payload it signs.
   */
  datatype TokenSchema = TokenSchema(accessToken: TokenPayload, refreshToken: string)

  /**
   * `verify_refresh_token`: the hash check never raises; a missing raw token
   * (which makes the hashing library raise) counts as "does not verify".
   */
  predicate VerifyRefreshToken(verify: (string, string) -> bool, raw: Option<string>, hashed: string) {
    raw.Some? && verify(raw.value, hashed)
  }

  function DigitChar(d: nat): char
    requires d < 10
  {
    "0123456789"[d]
  }

  predicate IsDigit(c: char) {
    '0' <= c <= '9'
  }

  /** `str(n)` for a non-negative integer. */
  function NatToString(n: nat): (s: string)
    ensures |s| > 0
    ensures forall i :: 0 <= i < |s| ==> IsDigit(s[i])
  {
    if n < 10 then [DigitChar(n)] else NatToString(n / 10) + [DigitChar(n % 10)]
  }

  /** Numeric value of a string of decimal digits. */
  function DigitsValue(s: string): nat
    requires forall i :: 0 <= i < |s| ==> IsDigit(s[i])
  {
    if |s| == 0 then 0
    else
      assert IsDigit(s[|s| - 1]);
      DigitsValue(s[..|s| - 1]) * 10 + (s[|s| - 1] as int - '0' as int)
  }

  /** `int(s)` restricted to plain digit strings; anything else fails. */
  function ParseNat(s: string): (r: Option<nat>)
    ensures r.Some? <==> |s| > 0 && forall i :: 0 <= i < |s| ==> IsDigit(s[i])
  {
    if |s| > 0 && forall i :: 0 <= i < |s| ==> IsDigit(s[i]) then Some(DigitsValue(s)) else None
  }

  lemma {:induction false} DigitsValueOfNatToString(n: nat)
    ensures DigitsValue(NatToString(n)) == n
  {
    if n >= 10 {
      var s := NatToString(n);
      var prefix := NatToString(n / 10);
      assert s == prefix + [DigitChar(n % 10)];
      assert s[..|s| - 1] == prefix;
      DigitsValueOfNatToString(n / 10);
    }
  }

  /** A subject written as `str(id)` is read back as `id` by `int(sub)`. */
  lemma ParseNatToString(n: nat)
    ensures ParseNat(NatToString(n)) == Some(n)
  {
    DigitsValueOfNatToString(n);
  }
}
